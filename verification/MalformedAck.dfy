/** The requester's update of all keys when the KEY_UPDATE_ACK is malformed: the acknowledgement is accepted
    under the new keys, the keys are rolled back, and the next attempt accepts the same bytes again. */
module MalformedAck {
  import opened Bytes
  import opened Aead
  import opened SecuredMessage
  import opened Session
  import opened Channel
  import opened Delivery
  import opened Replay

  const BOTH: Op := Create(true, true)

  /** The endpoint `a` sends a message and creates the next keys of both directions. */
  ghost predicate Asks(x: Ctx, a: End, app: bytes, capacity: nat, b: End, c: End) {
    && x.Valid() && a.s.Valid() && a.s.EncodeStep(x.c, app, capacity, a.role).1.Ok?
    && b == a.Apply(x, Encode(app, capacity), {})
    && b.s.Valid() && b.s.CreateStep(x.k, true, true).1.Ok?
    && c == b.Apply(x, BOTH, {})
  }

  /** `c` has the keys derived from those of `a`, and those of `a` as its backup. */
  ghost predicate Updated(x: Ctx, a: End, c: End) {
    && c.s.Valid() && c.role == a.role && c.s.state == a.s.state && c.s.framing == a.s.framing && c.halted == a.halted
    && c.s.app == Pair(NextLane(x.k, a.s.app.request).0, NextLane(x.k, a.s.app.response).0)
    && NextLane(x.k, a.s.app.request).1 && NextLane(x.k, a.s.app.response).1
    && c.s.backup.Get(!a.role) == a.s.app.Get(!a.role) && c.s.backup.Get(a.role).secret == a.s.app.Get(a.role).secret
    && c.at == Pair(NextAt(x.k, a.s.app.request, a.at.request), NextAt(x.k, a.s.app.response, a.at.response))
    && c.back == Pair(Some(a.at.request), Some(a.at.response))
    && c.accepted == a.accepted && c.uses.Get(!a.role) == a.uses.Get(!a.role)
  }

  /** A sent message: the counter of its direction moves. */
  lemma Sends(x: Ctx, a: End, app: bytes, capacity: nat)
    requires x.Valid() && a.s.Valid() && a.s.state.Established? && a.s.EncodeStep(x.c, app, capacity, a.role).1.Ok?
    ensures var b, q := a.Apply(x, Encode(app, capacity), {}), QueryFor(a.s.framing, a.s.Param(a.role), app);
            && b.s == a.s.Tick(a.role) && b.s.Valid() && b.sent == a.sent + [Message(q, app)] && b.accepted == a.accepted
            && b.uses.Get(!a.role) == a.uses.Get(!a.role) && b.role == a.role && b.at == a.at && b.back == a.back && b.halted == a.halted
  {
    AttemptedIff(a.s.framing, x.c, a.s.Param(a.role), app, capacity);
  }

  lemma Creates(x: Ctx, b: End)
    requires x.Valid() && b.s.Valid() && b.s.CreateStep(x.k, true, true).1.Ok?
    ensures Updated(x, b, b.Apply(x, BOTH, {})) && b.Apply(x, BOTH, {}).s.backup == b.s.app
    ensures b.Apply(x, BOTH, {}).sent == b.sent && b.Apply(x, BOTH, {}).uses == b.uses
  {
    StepsKeepValid(b.s, x.c, {}, x.k, [], 0, true, true, false);
  }

  lemma AsksUpdates(x: Ctx, a: End, app: bytes, capacity: nat, b: End, c: End)
    requires Asks(x, a, app, capacity, b, c) && a.s.state.Established?
    ensures Updated(x, a, c)
    ensures c.sent == a.sent + [Message(QueryFor(a.s.framing, a.s.Param(a.role), app), app)]
    ensures c.s.backup == a.s.Tick(a.role).app
  {
    Sends(x, a, app, capacity);
    Creates(x, b);
  }

  lemma AcceptIsRecorded(x: Ctx, a: End, wire: bytes, capacity: nat, log: set<Query>)
    requires x.Valid() && a.s.Valid() && a.s.state.Established?
    requires a.s.DecodeStep(x.c, log, wire, capacity, !a.role).1.Ok?
    ensures var b := a.Apply(x, Decode(wire, capacity), log);
            && b.accepted == a.accepted + [Receipt(a.s.DecodeStep(x.c, log, wire, capacity, !a.role).1.value, wire, capacity)]
            && b.uses.Get(!a.role) == a.uses.Get(!a.role) + [Use(Data(a.at.Get(!a.role).depth), a.s.app.Get(!a.role).param.seqNum)]
            && b.s == a.s.Tick(!a.role) && b.s.Valid() && b.role == a.role && b.at == a.at && b.back == a.back
            && b.halted == a.halted && b.sent == a.sent
  {
  }

  /** No key is ahead of its secret. */
  ghost predicate InSchedule(a: End) {
    a.at.request.depth <= a.at.request.secret && a.at.response.depth <= a.at.response.secret
  }

  /** What rolling both directions back restores. */
  lemma Restores(x: Ctx, a: End, c: End, d: End, e: End)
    requires x.Valid() && Updated(x, a, c) && d.s == c.s.Tick(!c.role) && d.s.Valid() && d.back == c.back && d.role == c.role
    requires e == d.Apply(x, Activate(true, true, false), {})
    ensures && e.s.Valid() && e.s.app == c.s.backup && e.at == a.at && e.s.state == d.s.state && e.s.framing == d.s.framing
            && e.role == a.role && e.accepted == d.accepted && e.uses == d.uses && e.sent == d.sent && e.halted == d.halted
  {
  }

  /** Updating from the restored keys leads to the same receiving keys, place and counter. */
  lemma SameAgain(x: Ctx, a: End, c: End, e: End, f: End)
    requires x.Valid() && Updated(x, a, c) && Updated(x, e, f)
    requires e.s.app == c.s.backup && e.at == a.at && e.role == a.role && e.s.state == a.s.state && e.s.framing == a.s.framing
    ensures f.s.app == c.s.app && f.at == c.at && f.s.state == c.s.state && f.s.framing == c.s.framing && f.role == c.role
  {
  }

  /** The accepted message is past the backup. */
  lemma PastBackup(x: Ctx, a: End, c: End, d: End)
    requires Updated(x, a, c) && d.back == c.back && d.role == a.role && InSchedule(a)
    requires d.uses.Get(!a.role) == a.uses.Get(!a.role) + [Use(Data(c.at.Get(!a.role).depth), 0)]
    ensures !d.HalfOf(!a.role).CanRollBack()
  {
    assert !d.HalfOf(!a.role).PassedInBackup(d.uses.Get(!a.role)[|a.uses.Get(!a.role)|]);
  }

  /** The answer is accepted under the new keys, as the first message there. */
  lemma AnswerAccepted(x: Ctx, a: End, c: End, wire: bytes, capacity: nat, log: set<Query>, d: End)
    requires x.Valid() && Updated(x, a, c) && a.s.state.Established? && InSchedule(a)
    requires c.s.DecodeStep(x.c, log, wire, capacity, !a.role).1.Ok? && d == c.Apply(x, Decode(wire, capacity), log)
    ensures Accepted(x, c, wire, capacity, log, d) && !d.HalfOf(!a.role).CanRollBack()
  {
    AcceptIsRecorded(x, c, wire, capacity, log);
    PastBackup(x, a, c, d);
  }

  /** `d` is `c` after accepting a message. */
  ghost predicate Accepted(x: Ctx, c: End, wire: bytes, capacity: nat, log: set<Query>, d: End) {
    && c.s.Valid() && d.s.Valid() && d.s == c.s.Tick(!c.role)
    && c.s.DecodeStep(x.c, log, wire, capacity, !c.role).1.Ok?
    && d.accepted == c.accepted + [Receipt(c.s.DecodeStep(x.c, log, wire, capacity, !c.role).1.value, wire, capacity)]
    && d.uses.Get(!c.role) == c.uses.Get(!c.role) + [Use(Data(c.at.Get(!c.role).depth), c.s.app.Get(!c.role).param.seqNum)]
    && d.role == c.role && d.at == c.at && d.back == c.back && d.halted == c.halted && d.sent == c.sent
  }

  lemma AcceptedAgain(x: Ctx, c: End, wire: bytes, capacity: nat, log: set<Query>, d: End, f: End, more: set<Query>)
    requires x.Valid() && Accepted(x, c, wire, capacity, log, d)
    requires f.s.Valid() && f.s.app == c.s.app && f.at == c.at && f.s.state == c.s.state && f.s.framing == c.s.framing && f.role == c.role
    requires c.s.state.Established? && log <= more && f.accepted == d.accepted && f.uses.Get(!c.role) == d.uses.Get(!c.role)
    ensures f.s.DecodeStep(x.c, more, wire, capacity, !c.role).1.Ok?
    ensures Twice(c, d, f.Apply(x, Decode(wire, capacity), more))
  {
    DecodeMonotone(c.s.framing, x.c, log, more, c.s.Param(!c.role), wire, capacity);
    AcceptIsRecorded(x, f, wire, capacity, more);
  }

  /** `g` has accepted what `d` accepted last twice, at one place. */
  ghost predicate Twice(c: End, d: End, g: End) {
    && |d.accepted| == |c.accepted| + 1 && |d.uses.Get(!c.role)| == |c.uses.Get(!c.role)| + 1
    && g.role == c.role && g.accepted == d.accepted + [d.accepted[|c.accepted|]]
    && g.uses.Get(!c.role) == d.uses.Get(!c.role) + [d.uses.Get(!c.role)[|c.uses.Get(!c.role)|]]
  }

  /** From any state: a message and a creation, an accepted answer, the rollback, the same message and
      creation again. The same bytes are accepted a second time, at the same place. */
  lemma MalformedAckReplays(x: Ctx, a: End, app: bytes, capacity: nat, b: End, c: End, wire: bytes, log: set<Query>, d: End,
                            e: End, b': End, f: End, more: set<Query>)
    requires Asks(x, a, app, capacity, b, c) && a.s.state.Established? && InSchedule(a) && c.s.Valid()
    requires c.s.DecodeStep(x.c, log, wire, capacity, !a.role).1.Ok? && d == c.Apply(x, Decode(wire, capacity), log)
    requires d.s.Valid() && e == d.Apply(x, Activate(true, true, false), {})
    requires Asks(x, e, app, capacity, b', f) && log <= more
    ensures !d.HalfOf(!a.role).CanRollBack()
    ensures f.s.Valid() && Twice(c, d, f.Apply(x, Decode(wire, capacity), more))
  {
    AsksUpdates(x, a, app, capacity, b, c);
    AnswerAccepted(x, a, c, wire, capacity, log, d);
    Restores(x, a, c, d, e);
    AsksUpdates(x, e, app, capacity, b', f);
    SameAgain(x, a, c, e, f);
    AcceptedAgain(x, c, wire, capacity, log, d, f, more);
  }

  // A run from the end of the handshake

  /** Both endpoints are established, the messages fit, the counters have room, and the derivations succeed. */
  ghost predicate CanUpdate(x: Ctx, w: World, update: bytes, ack: bytes, capacity: nat) {
    && x.Valid() && x.c.Total()
    && Fresh(x, w.req) && w.req.role && w.req.s.state.Established?
    && Fresh(x, w.rsp) && !w.rsp.role && w.rsp.s.state.Established?
    && w.foreign == {}
    && x.base.app.request.param.seqNum + 2 <= U64_MAX
    && NextLane(x.k, x.base.app.request).1 && NextLane(x.k, x.base.app.response).1
    && Fits(x.base.framing, update, capacity) && Fits(x.base.framing, ack, capacity)
  }

  predicate Fits(f: Framing, app: bytes, capacity: nat) {
    |app| + 2 <= SENDER_BUFFER_SIZE && f.AadSize() + |app| + 2 + TAG_SIZE <= capacity
  }

  /** What the sender of `app` hands to the transport. */
  ghost function WireOf(x: Ctx, p: SecretParam, app: bytes, capacity: nat): (wire: bytes)
    requires x.Valid() && x.c.Total() && p.Valid() && p.seqNum < U64_MAX && Fits(x.base.framing, app, capacity)
    ensures SecuredMessage.Encode(x.base.framing, x.c, p, app, capacity) == Ok(Encoded(QueryFor(x.base.framing, p, app), wire))
  {
    EncodeSucceeds(x.base.framing, x.c, p, app, capacity);
    SecuredMessage.Encode(x.base.framing, x.c, p, app, capacity).value.wire
  }

  lemma CanSend(x: Ctx, a: End, app: bytes, capacity: nat)
    requires x.Valid() && x.c.Total() && a.s.Valid() && a.s.state.Established? && a.s.framing == x.base.framing
    requires a.s.app.Get(a.role).param.seqNum < U64_MAX && Fits(x.base.framing, app, capacity)
    ensures a.s.EncodeStep(x.c, app, capacity, a.role).1
         == Ok(Encoded(QueryFor(x.base.framing, a.s.app.Get(a.role).param, app), WireOf(x, a.s.app.Get(a.role).param, app, capacity)))
  {
  }

  lemma CanAccept(x: Ctx, a: End, p: SecretParam, app: bytes, capacity: nat, log: set<Query>)
    requires x.Valid() && x.c.Total() && a.s.Valid() && a.s.state.Established? && a.s.framing == x.base.framing
    requires p.Valid() && p.seqNum < U64_MAX && Fits(x.base.framing, app, capacity)
    requires a.s.app.Get(!a.role).param == p && QueryFor(x.base.framing, p, app) in log
    ensures a.s.DecodeStep(x.c, log, WireOf(x, p, app, capacity), capacity, !a.role).1 == Ok(app)
  {
    var wire := WireOf(x, p, app, capacity);
    DecodeOfEncode(x.base.framing, x.c, log, p, app, capacity, [], capacity);
    assert wire + [] == wire;
  }

  lemma CanAsk(x: Ctx, a: End, app: bytes, capacity: nat) returns (b: End, c: End)
    requires x.Valid() && x.c.Total() && a.s.Valid() && a.s.state.Established? && a.s.framing == x.base.framing
    requires a.s.app.Get(a.role).param.seqNum < U64_MAX && Fits(x.base.framing, app, capacity)
    requires NextLane(x.k, a.s.app.request).1 && NextLane(x.k, a.s.app.response).1
    ensures Asks(x, a, app, capacity, b, c) && b.halted == a.halted
  {
    CanSend(x, a, app, capacity);
    Sends(x, a, app, capacity);
    b := a.Apply(x, Encode(app, capacity), {});
    c := b.Apply(x, BOTH, {});
  }

  /** Only decoding depends on what was encrypted so far. */
  lemma LogFree(x: Ctx, a: End, op: Op, log: set<Query>)
    requires x.Valid() && a.s.Valid() && !op.Decode?
    ensures a.Apply(x, op, log) == a.Apply(x, op, {})
  {
  }

  /** One more step, to an endpoint that is known. */
  lemma Go(x: Ctx, w: World, ws: seq<World>, es: seq<Event>, r: bool, op: Op, to: End) returns (ws': seq<World>, es': seq<Event>)
    requires x.Valid() && Follows(x, w, ws, es) && ws[|es|].Valid() && Of(ws[|es|], r).Proper(op) && to.s.Valid()
    requires to == Of(ws[|es|], r).Apply(x, op, if op.Decode? then ws[|es|].Log() else {})
    ensures es' == es + [Turn(r, op)] && ws' == ws + [With(ws[|es|], r, to)] && Follows(x, w, ws', es') && ws'[|es'|].Valid()
  {
    if !op.Decode? {
      LogFree(x, Of(ws[|es|], r), op, ws[|es|].Log());
    }
    var next := AppendTurn(x, w, ws, es, r, op);
    ws', es' := ws + [next], es + [Turn(r, op)];
  }

  lemma GoTwice(x: Ctx, w: World, ws: seq<World>, es: seq<Event>, r: bool, op: Op, mid: End, next: Op, to: End)
    returns (ws': seq<World>, es': seq<Event>)
    requires x.Valid() && Follows(x, w, ws, es) && ws[|es|].Valid() && Of(ws[|es|], r).Proper(op) && mid.Proper(next)
    requires mid.s.Valid() && to.s.Valid() && !next.Decode? && to == mid.Apply(x, next, {})
    requires mid == Of(ws[|es|], r).Apply(x, op, if op.Decode? then ws[|es|].Log() else {})
    ensures es' == es + [Turn(r, op), Turn(r, next)] && ws' == ws + [With(ws[|es|], r, mid), With(ws[|es|], r, to)]
    ensures Follows(x, w, ws', es') && ws'[|es'|].Valid()
  {
    ws', es' := Go(x, w, ws, es, r, op, mid);
    ws', es' := Go(x, w, ws', es', r, next, to);
  }

  /** What `a` hands to the transport for `app` is `wire`. */
  ghost predicate Sent(x: Ctx, a: End, app: bytes, capacity: nat, wire: bytes) {
    && a.s.Valid() && a.s.EncodeStep(x.c, app, capacity, a.role).1.Ok?
    && a.s.EncodeStep(x.c, app, capacity, a.role).1.value.wire == wire
  }

  /** The response keys after the update. */
  function NewParam(x: Ctx): SecretParam {
    NextLane(x.k, x.base.app.response).0.param
  }

  /** The responder accepts the request, updates and commits both directions, and answers. */
  ghost predicate Answers(x: Ctx, a: End, wire: bytes, ack: bytes, capacity: nat, log: set<Query>, r1: End, r2: End, r3: End, r4: End)
    requires x.Valid()
  {
    && a.s.Valid() && r1 == a.Apply(x, Decode(wire, capacity), log)
    && r1.s.Valid() && !r1.halted && r2 == r1.Apply(x, BOTH, {})
    && r2.s.Valid() && !r2.halted && r3 == r2.Apply(x, Activate(true, true, true), {})
    && r3.s.Valid() && !r3.halted && r4 == r3.Apply(x, Encode(ack, capacity), {})
    && r4.s.Valid()
  }

  lemma CanAnswer(x: Ctx, w: World, update: bytes, ack: bytes, capacity: nat, log: set<Query>)
    returns (r1: End, r2: End, r3: End, r4: End)
    requires CanUpdate(x, w, update, ack, capacity) && QueryFor(x.base.framing, x.base.app.request.param, update) in log
    ensures Answers(x, w.rsp, WireOf(x, x.base.app.request.param, update, capacity), ack, capacity, log, r1, r2, r3, r4)
    ensures NewParam(x).Valid() && NewParam(x).seqNum == 0
    ensures r4.sent == [Message(QueryFor(x.base.framing, NewParam(x), ack), ack)]
    ensures Sent(x, r3, ack, capacity, WireOf(x, NewParam(x), ack, capacity)) && !r3.role
  {
    var a, wire := w.rsp, WireOf(x, x.base.app.request.param, update, capacity);
    CanAccept(x, a, x.base.app.request.param, update, capacity, log);
    AcceptIsRecorded(x, a, wire, capacity, log);
    r1 := a.Apply(x, Decode(wire, capacity), log);
    r2, r3, r4 := Commits(x, r1, ack, capacity);
  }

  lemma Commits(x: Ctx, r1: End, ack: bytes, capacity: nat) returns (r2: End, r3: End, r4: End)
    requires x.Valid() && x.c.Total() && r1.s.Valid() && !r1.halted && !r1.role && r1.sent == [] && Fits(x.base.framing, ack, capacity)
    requires r1.s.state.Established? && r1.s.framing == x.base.framing && r1.s.app.response == x.base.app.response
    requires NextLane(x.k, r1.s.app.request).1 && NextLane(x.k, x.base.app.response).1
    ensures r2 == r1.Apply(x, BOTH, {}) && r2.s.Valid() && !r2.halted
    ensures r3 == r2.Apply(x, Activate(true, true, true), {}) && r3.s.Valid() && !r3.halted
    ensures r4 == r3.Apply(x, Encode(ack, capacity), {}) && r4.s.Valid()
    ensures NewParam(x).Valid() && NewParam(x).seqNum == 0
    ensures r4.sent == [Message(QueryFor(x.base.framing, NewParam(x), ack), ack)]
    ensures Sent(x, r3, ack, capacity, WireOf(x, NewParam(x), ack, capacity)) && !r3.role
  {
    Creates(x, r1);
    r2 := r1.Apply(x, BOTH, {});
    r3 := r2.Apply(x, Activate(true, true, true), {});
    assert r3.s.Valid() && r3.s.app == r2.s.app && r3.s.state.Established? && r3.s.framing == x.base.framing && r3.sent == [];
    CanSend(x, r3, ack, capacity);
    Sends(x, r3, ack, capacity);
    r4 := r3.Apply(x, Encode(ack, capacity), {});
  }

  /** The events of an update up to the accepted acknowledgement. */
  function UpdateEvents(update: bytes, request: bytes, ack: bytes, answer: bytes, capacity: nat): seq<Event> {
    [Req(Encode(update, capacity)), Req(BOTH),
     Rsp(Decode(request, capacity)), Rsp(BOTH), Rsp(Activate(true, true, true)), Rsp(Encode(ack, capacity)),
     Req(Decode(answer, capacity))]
  }

  lemma AskTurns(x: Ctx, w: World, ws: seq<World>, es: seq<Event>, app: bytes, capacity: nat, b: End, c: End)
    returns (ws': seq<World>, es': seq<Event>)
    requires x.Valid() && Follows(x, w, ws, es) && ws[|es|].Valid() && !ws[|es|].req.halted && !b.halted
    requires Asks(x, ws[|es|].req, app, capacity, b, c) && c.s.Valid()
    ensures es' == es + [Req(Encode(app, capacity)), Req(BOTH)] && Follows(x, w, ws', es')
    ensures ws'[|es'|] == ws[|es|].(req := c) && ws'[|es'|].Valid() && ws <= ws'
  {
    ws', es' := GoTwice(x, w, ws, es, true, Encode(app, capacity), b, BOTH, c);
  }

  lemma AnswerTurns(x: Ctx, w: World, ws: seq<World>, es: seq<Event>, wire: bytes, ack: bytes, capacity: nat,
                    r1: End, r2: End, r3: End, r4: End)
    returns (ws': seq<World>, es': seq<Event>)
    requires x.Valid() && Follows(x, w, ws, es) && ws[|es|].Valid() && !ws[|es|].rsp.halted
    requires Answers(x, ws[|es|].rsp, wire, ack, capacity, ws[|es|].Log(), r1, r2, r3, r4)
    ensures es' == es + [Rsp(Decode(wire, capacity)), Rsp(BOTH), Rsp(Activate(true, true, true)), Rsp(Encode(ack, capacity))]
    ensures Follows(x, w, ws', es') && ws'[|es'|] == ws[|es|].(rsp := r4) && ws'[|es'|].Valid() && ws <= ws'
    ensures ws'[|es'| - 1] == ws[|es|].(rsp := r3)
  {
    ws', es' := GoTwice(x, w, ws, es, false, Decode(wire, capacity), r1, BOTH, r2);
    ws', es' := GoTwice(x, w, ws', es', false, Activate(true, true, true), r3, Encode(ack, capacity), r4);
  }

  lemma Logged(w: World, r: bool, m: Message)
    requires m in Of(w, r).sent
    ensures m.query in w.Log()
  {
    var i :| 0 <= i < |Of(w, r).sent| && Of(w, r).sent[i] == m;
    assert Of(w, r).sent[i].query in Queries(Of(w, r));
  }

  lemma AskRun(x: Ctx, w: World, update: bytes, ack: bytes, capacity: nat)
    returns (ws: seq<World>, es: seq<Event>, b: End, c: End, request: bytes)
    requires CanUpdate(x, w, update, ack, capacity)
    ensures Follows(x, w, ws, es) && es == [Req(Encode(update, capacity)), Req(BOTH)] && ws[2] == w.(req := c) && ws[2].Valid()
    ensures Sent(x, w.req, update, capacity, request) && request == WireOf(x, x.base.app.request.param, update, capacity)
    ensures Asks(x, w.req, update, capacity, b, c) && !b.halted && Updated(x, w.req, c)
    ensures QueryFor(x.base.framing, x.base.app.request.param, update) in ws[2].Log()
  {
    CanSend(x, w.req, update, capacity);
    request := WireOf(x, x.base.app.request.param, update, capacity);
    b, c := CanAsk(x, w.req, update, capacity);
    AsksUpdates(x, w.req, update, capacity, b, c);
    ws, es := AskTurns(x, w, [w], [], update, capacity, b, c);
    assert c.sent[0] in c.sent;
    Logged(ws[2], true, c.sent[0]);
  }

  /** The responder has encrypted `answer` for `ack` as the first message under the new keys. */
  ghost predicate OnTheWay(x: Ctx, rsp: End, ack: bytes, capacity: nat, answer: bytes) {
    && x.Valid() && x.c.Total() && Fits(x.base.framing, ack, capacity)
    && NewParam(x).Valid() && NewParam(x).seqNum == 0 && answer == WireOf(x, NewParam(x), ack, capacity)
    && rsp.sent == [Message(QueryFor(x.base.framing, NewParam(x), ack), ack)]
  }

  lemma AnswerRun(x: Ctx, w: World, ws: seq<World>, es: seq<Event>, update: bytes, request: bytes, ack: bytes, capacity: nat)
    returns (ws': seq<World>, es': seq<Event>, answer: bytes)
    requires CanUpdate(x, w, update, ack, capacity) && Follows(x, w, ws, es) && ws[|es|].Valid() && ws[|es|].rsp == w.rsp
    requires request == WireOf(x, x.base.app.request.param, update, capacity)
    requires QueryFor(x.base.framing, x.base.app.request.param, update) in ws[|es|].Log()
    ensures es' == es + [Rsp(Decode(request, capacity)), Rsp(BOTH), Rsp(Activate(true, true, true)), Rsp(Encode(ack, capacity))]
    ensures Follows(x, w, ws', es') && ws'[|es'|].Valid() && ws'[|es'|].req == ws[|es|].req
    ensures OnTheWay(x, ws'[|es'|].rsp, ack, capacity, answer) && Sent(x, ws'[|es'| - 1].rsp, ack, capacity, answer)
  {
    var r1, r2, r3, r4 := CanAnswer(x, w, update, ack, capacity, ws[|es|].Log());
    answer := WireOf(x, NewParam(x), ack, capacity);
    ws', es' := AnswerTurns(x, w, ws, es, request, ack, capacity, r1, r2, r3, r4);
  }

  /** The update up to the answer: the requester has the new keys, the responder's answer is on its way. */
  lemma UpdateRun(x: Ctx, w: World, update: bytes, ack: bytes, capacity: nat)
    returns (ws: seq<World>, es: seq<Event>, b: End, c: End, request: bytes, answer: bytes)
    requires CanUpdate(x, w, update, ack, capacity)
    ensures Follows(x, w, ws, es) && |es| == 6 && ws[6].Valid() && OnTheWay(x, ws[6].rsp, ack, capacity, answer)
    ensures es + [Req(Decode(answer, capacity))] == UpdateEvents(update, request, ack, answer, capacity)
    ensures Sent(x, w.req, update, capacity, request) && Sent(x, ws[5].rsp, ack, capacity, answer)
    ensures Asks(x, w.req, update, capacity, b, c) && !b.halted && Updated(x, w.req, c) && ws[6].req == c
  {
    ws, es, b, c, request := AskRun(x, w, update, ack, capacity);
    ws, es, answer := AnswerRun(x, w, ws, es, update, request, ack, capacity);
  }

  /** The requester, ready for the answer, accepts it. */
  lemma AckTurn(x: Ctx, w: World, ws: seq<World>, es: seq<Event>, ack: bytes, capacity: nat, answer: bytes)
    returns (ws': seq<World>, es': seq<Event>, d: End)
    requires x.Valid() && Follows(x, w, ws, es) && ws[|es|].Valid() && OnTheWay(x, ws[|es|].rsp, ack, capacity, answer)
    requires var c := ws[|es|].req;
             c.role && !c.halted && c.s.state.Established? && c.s.framing == x.base.framing && c.s.app.response.param == NewParam(x)
    ensures var c := ws[|es|].req;
            && c.s.DecodeStep(x.c, ws[|es|].Log(), answer, capacity, false).1 == Ok(ack)
            && d == c.Apply(x, Decode(answer, capacity), ws[|es|].Log())
            && es' == es + [Req(Decode(answer, capacity))] && ws' == ws + [ws[|es|].(req := d)]
            && Follows(x, w, ws', es') && ws'[|es'|].Valid() && d.accepted == c.accepted + [Receipt(ack, answer, capacity)]
  {
    var c := ws[|es|].req;
    Logged(ws[|es|], false, ws[|es|].rsp.sent[0]);
    CanAccept(x, c, NewParam(x), ack, capacity, ws[|es|].Log());
    AcceptIsRecorded(x, c, answer, capacity, ws[|es|].Log());
    d := c.Apply(x, Decode(answer, capacity), ws[|es|].Log());
    ws', es' := Go(x, w, ws, es, true, Decode(answer, capacity), d);
  }

  lemma FollowsIsRun(x: Ctx, w: World, ws: seq<World>, es: seq<Event>)
    requires x.Valid() && x.KeysDistinct() && Follows(x, w, ws, es)
    requires Fresh(x, w.req) && w.req.role && Fresh(x, w.rsp) && !w.rsp.role && w.foreign == {}
    ensures IsRun(x, ws, es)
  {
    forall i | 0 <= i < |es|
      ensures Step(x, ws[i], es[i], ws[i + 1])
    {
      assert TakenAt(x, ws, es, i);
    }
  }

  /** A proper run from the end of the handshake: the requester updates all keys, the responder answers, and
      the answer is accepted under the new keys. */
  lemma AckRun(x: Ctx, w: World, update: bytes, ack: bytes, capacity: nat)
    returns (ws: seq<World>, es: seq<Event>, request: bytes, answer: bytes, b: End, c: End, d: End)
    requires CanUpdate(x, w, update, ack, capacity) && x.KeysDistinct()
    ensures IsRun(x, ws, es) && ws[0] == w && es == UpdateEvents(update, request, ack, answer, capacity) && ws[7].Valid()
    ensures Sent(x, w.req, update, capacity, request) && Sent(x, ws[5].rsp, ack, capacity, answer)
    ensures Asks(x, w.req, update, capacity, b, c) && Updated(x, w.req, c) && OnTheWay(x, ws[7].rsp, ack, capacity, answer)
    ensures c.s.DecodeStep(x.c, ws[6].Log(), answer, capacity, false).1 == Ok(ack)
    ensures d == c.Apply(x, Decode(answer, capacity), ws[6].Log()) && ws[6].Valid() && ws[6].req == c && ws[7] == ws[6].(req := d)
    ensures d.accepted == [Receipt(ack, answer, capacity)]
  {
    ws, es, b, c, request, answer := UpdateRun(x, w, update, ack, capacity);
    ws, es, d := AckTurn(x, w, ws, es, ack, capacity, answer);
    FollowsIsRun(x, w, ws, es);
  }

  /** After the rollback: the same request and creation, and the same bytes are accepted again. */
  lemma AgainRun(x: Ctx, w: World, ack: bytes, update: bytes, capacity: nat, answer: bytes)
    returns (ws: seq<World>, es: seq<Event>, b: End, f: End, g: End)
    requires x.Valid() && w.Valid() && OnTheWay(x, w.rsp, ack, capacity, answer) && Fits(x.base.framing, update, capacity)
    requires var e := w.req;
             && e.role && !e.halted && e.s.state.Established? && e.s.framing == x.base.framing && e.s.app.request.param.seqNum < U64_MAX
             && e.s.app.response == x.base.app.response && NextLane(x.k, e.s.app.request).1 && NextLane(x.k, e.s.app.response).1
    ensures Follows(x, w, ws, es) && es == [Req(Encode(update, capacity)), Req(BOTH), Req(Decode(answer, capacity))]
    ensures Asks(x, w.req, update, capacity, b, f) && f.s.Valid() && g == f.Apply(x, Decode(answer, capacity), ws[2].Log())
    ensures ws[2] == w.(req := f) && ws[3] == w.(req := g)
  {
    b, f := CanAsk(x, w.req, update, capacity);
    AsksUpdates(x, w.req, update, capacity, b, f);
    ws, es := AskTurns(x, w, [w], [], update, capacity, b, f);
    ws, es, g := AckTurn(x, w, ws, es, ack, capacity, answer);
  }

  /** The requester after the rollback of `d`. */
  lemma BackAgain(x: Ctx, a: End, c: End, d: End, e: End)
    requires x.Valid() && Updated(x, a, c) && Fresh(x, a) && a.role && d.s == c.s.Tick(false) && d.s.Valid()
    requires d.back == c.back && d.role == c.role && d.halted == c.halted && e == d.Apply(x, Activate(true, true, false), {})
    requires c.s.backup == a.s.Tick(true).app && a.s.state.Established? && x.base.app.request.param.seqNum + 2 <= U64_MAX
    ensures && e.s.Valid() && e.role && !e.halted && e.s.state.Established? && e.s.framing == x.base.framing
            && e.s.app.request.param.seqNum < U64_MAX && e.s.app.request.secret == x.base.app.request.secret
            && e.s.app.response == x.base.app.response
  {
    Restores(x, a, c, d, e);
  }

  /** Nothing encrypted is forgotten. */
  lemma LogGrows(w: World, w': World)
    requires w.req.sent <= w'.req.sent && w'.rsp == w.rsp && w'.foreign == w.foreign
    ensures w.Log() <= w'.Log()
  {
    QueriesGrow(w.req, w'.req);
  }

  /** The second half: from the accepted answer on. */
  lemma Replays(x: Ctx, a: End, update: bytes, ack: bytes, capacity: nat, b: End, w: World, answer: bytes)
    returns (d: End, e: End, ws: seq<World>, es: seq<Event>, g: End)
    requires Asks(x, a, update, capacity, b, w.req) && Fresh(x, a) && a.role && a.s.state.Established?
    requires w.Valid() && OnTheWay(x, w.rsp, ack, capacity, answer) && Fits(x.base.framing, update, capacity)
    requires x.base.app.request.param.seqNum + 2 <= U64_MAX
    ensures d == w.req.Apply(x, Decode(answer, capacity), w.Log()) && d.s.Valid() && !d.HalfOf(false).CanRollBack()
    ensures e == d.Apply(x, Activate(true, true, false), {})
    ensures Follows(x, w.(req := e), ws, es) && es == [Req(Encode(update, capacity)), Req(BOTH), Req(Decode(answer, capacity))]
    ensures ws[3] == w.(req := g) && Twice(w.req, d, g)
  {
    var c := w.req;
    AsksUpdates(x, a, update, capacity, b, c);
    Logged(w, false, w.rsp.sent[0]);
    CanAccept(x, c, NewParam(x), ack, capacity, w.Log());
    AcceptIsRecorded(x, c, answer, capacity, w.Log());
    d := c.Apply(x, Decode(answer, capacity), w.Log());
    e := d.Apply(x, Activate(true, true, false), {});
    BackAgain(x, a, c, d, e);
    var b', f := e, e;
    ws, es, b', f, g := AgainRun(x, w.(req := e), ack, update, capacity, answer);
    AsksUpdates(x, e, update, capacity, b', f);
    Restores(x, a, c, d, e);
    LogGrows(w, ws[2]);
    MalformedAckReplays(x, a, update, capacity, b, c, answer, w.Log(), d, e, b', f, ws[2].Log());
  }

  lemma NotDelivered(x: Ctx, ws: seq<World>, es: seq<Event>, c: End, d: End, g: End)
    requires IsRun(x, ws, es) && Twice(c, d, g) && c.role && c.accepted == [] && c.uses.Get(false) == []
    ensures !Delivered(ws[|es|].rsp, g)
  {
    RunKeepsInv(x, ws, es);
    TwiceIsNotInOrder(x, ws[|es|].rsp, g, 0, 1);
  }

  /** The whole run: an update of all keys from the end of the handshake, whose acknowledgement is accepted and
      then rolled back. The next attempt accepts the same bytes again, and delivery is not in order. */
  lemma MalformedAckRun(x: Ctx, w: World, update: bytes, ack: bytes, capacity: nat)
    returns (ws: seq<World>, es: seq<Event>, request: bytes, answer: bytes, ws': seq<World>, es': seq<Event>)
    requires CanUpdate(x, w, update, ack, capacity) && x.KeysDistinct()
    ensures IsRun(x, ws, es) && ws[0] == w && es == UpdateEvents(update, request, ack, answer, capacity)
    ensures Sent(x, ws[0].req, update, capacity, request) && Sent(x, ws[5].rsp, ack, capacity, answer)
    ensures ws[7].Valid() && !ws[7].req.HalfOf(false).CanRollBack()
    ensures Follows(x, ws[7].(req := ws[7].req.Apply(x, Activate(true, true, false), {})), ws', es')
    ensures es' == [Req(Encode(update, capacity)), Req(BOTH), Req(Decode(answer, capacity))]
    ensures ws'[3].req.accepted == [Receipt(ack, answer, capacity), Receipt(ack, answer, capacity)]
    ensures !Delivered(ws'[3].rsp, ws'[3].req)
  {
    var b, c, d := w.req, w.req, w.req;
    ws, es, request, answer, b, c, d := AckRun(x, w, update, ack, capacity);
    var d', e, g := d, d, d;
    d', e, ws', es', g := Replays(x, w.req, update, ack, capacity, b, ws[6], answer);
    assert d' == d;
    assert ws[6].(req := e) == ws[7].(req := e);
    NotDelivered(x, ws, es, c, d, g);
  }
}
