/** Whole runs of two endpoints that share one session, with an adversary on the wire.
    Every secured message has a place: a direction, a key epoch, and a counter in it. */
module Channel {
  import opened Bytes
  import opened Aead
  import opened SecuredMessage
  import opened Session

  /** The handshake keys, or the data keys after `depth` key updates. */
  datatype Phase = Handshake | Data(depth: nat)

  datatype Use = Use(phase: Phase, n: nat)

  /** How many updates the key and the secret of a lane are derived with. */
  datatype At = At(depth: nat, secret: nat)

  predicate SamePhase(u: Use, v: Use) {
    u.phase.Handshake? == v.phase.Handshake?
  }

  /** Later in the same direction: a later epoch, or a larger counter in the same one. */
  predicate Before(u: Use, v: Use) {
    SamePhase(u, v) &&
    match u.phase
    case Handshake => u.n < v.n
    case Data(d) => d < v.phase.depth || (d == v.phase.depth && u.n < v.n)
  }

  /** The abstract primitives and the key material the handshake left in both endpoints. */
  datatype Ctx = Ctx(k: KeySchedule, c: Cipher, base: Session) {

    function Secret(r: bool, depth: nat): Option<bytes> {
      if depth == 0 then Some(base.app.Get(r).secret)
      else
        match Secret(r, depth - 1)
        case None => None
        case Some(s) => k.update(s)
    }

    /** Key and salt of an epoch. */
    function Material(r: bool, phase: Phase): Option<(bytes, bytes)> {
      match phase
      case Handshake => Some((base.handshake.Get(r).key, base.handshake.Get(r).salt))
      case Data(d) =>
        if d == 0 then Some((base.app.Get(r).param.key, base.app.Get(r).param.salt))
        else
          match Secret(r, d)
          case None => None
          case Some(s) => k.keyIv(s)
    }

    /** A lane at a place of the key schedule: a failed derivation can leave its secret ahead of its key. */
    predicate LaneAt(r: bool, at: At, lane: Lane) {
      && Secret(r, at.secret) == Some(lane.secret)
      && Material(r, Data(at.depth)) == Some((lane.param.key, lane.param.salt))
    }

    ghost predicate Valid() {
      k.Valid() && c.Correct() && base.Valid()
    }

    /** The key derivations never produce one key for two epochs or directions. */
    ghost predicate KeysDistinct() {
      forall r, p, r', p' {:trigger Material(r, p), Material(r', p')} ::
        Material(r, p).Some? && Material(r', p').Some? && Material(r, p).value.0 == Material(r', p').value.0
        ==> r == r' && p == p'
    }

    ghost predicate ForeignKey(key: bytes) {
      forall r, p {:trigger Material(r, p)} :: Material(r, p).Some? ==> Material(r, p).value.0 != key
    }
  }

  /** One direction of one endpoint, with the places its accepted or sent messages took. `back` is the
      place of the backup, if that holds keys of the session. */
  datatype Half = Half(handshake: SecretParam, lane: Lane, backup: Lane, at: At, back: Option<At>, uses: seq<Use>) {

    /** Whether the place `u` is already behind the counters. */
    predicate Passed(u: Use) {
      match u.phase
      case Handshake => u.n < handshake.seqNum
      case Data(d) => d < at.depth || (d == at.depth && u.n < lane.param.seqNum)
    }

    /** Whether it is behind the counter of the backup, too. */
    predicate PassedInBackup(u: Use) {
      back.Some? && (u.phase.Data? ==> u.phase.depth < back.value.depth
                                       || (u.phase.depth == back.value.depth && u.n < backup.param.seqNum))
    }

    /** The backup holds keys of the session, and nothing was sent or accepted past it. */
    predicate CanRollBack() {
      back.Some? && forall i :: 0 <= i < |uses| ==> PassedInBackup(uses[i])
    }

    ghost predicate Sorted() {
      forall i, j :: 0 <= i < j < |uses| && SamePhase(uses[i], uses[j]) ==> Before(uses[i], uses[j])
    }

    /** The current keys are the backup's or the ones derived from it next, and so is every use past it. */
    ghost predicate BackupInv(x: Ctx, r: bool) {
      back.Some? ==>
        && x.LaneAt(r, back.value, backup)
        && (at.depth == back.value.depth || at.depth == back.value.secret + 1)
        && forall i :: 0 <= i < |uses| && uses[i].phase.Data? ==>
             uses[i].phase.depth <= back.value.depth || uses[i].phase.depth == at.depth
    }

    ghost predicate Inv(x: Ctx, r: bool) {
      && handshake.Valid() && lane.param.Valid() && backup.param.Valid()
      && x.Material(r, Handshake) == Some((handshake.key, handshake.salt))
      && x.LaneAt(r, at, lane) && at.depth <= at.secret
      && (back.Some? ==> back.value.depth <= back.value.secret)
      && (forall i :: 0 <= i < |uses| ==> Passed(uses[i]))
      && Sorted()
      && BackupInv(x, r)
    }

    function Place(state: SessionState): Use {
      if state.Handshaking? then Use(Handshake, handshake.seqNum) else Use(Data(at.depth), lane.param.seqNum)
    }

    /** One counted attempt; the place is recorded when it succeeded. */
    function Attempt(state: SessionState, success: bool): Half {
      var d := if success then this.(uses := uses + [Place(state)]) else this;
      if state.Handshaking? then d.(handshake := handshake.(seqNum := handshake.seqNum + 1))
      else d.(lane := lane.(param := lane.param.(seqNum := lane.param.seqNum + 1)))
    }

    /** One creation, successful or not. */
    function Create(k: KeySchedule): Half {
      this.(backup := lane, back := Some(at), lane := NextLane(k, lane).0, at := NextAt(k, lane, at))
    }

    function Commit(): Half {
      this.(backup := DEFAULT_LANE, back := None)
    }

    function RollBack(): Half
      requires back.Some?
    {
      this.(lane := backup, at := back.value)
    }
  }

  function NextAt(k: KeySchedule, lane: Lane, at: At): At {
    if NextLane(k, lane).1 then At(at.secret + 1, at.secret + 1)
    else if k.update(lane.secret).Some? then At(at.depth, at.secret + 1)
    else at
  }

  lemma AttemptKeepsInv(x: Ctx, r: bool, d: Half, state: SessionState, success: bool)
    requires d.Inv(x, r)
    requires if state.Handshaking? then d.handshake.seqNum < U64_MAX else d.lane.param.seqNum < U64_MAX
    ensures d.Attempt(state, success).Inv(x, r)
  {
    var e := d.Attempt(state, success);
    assert e.uses == d.uses || e.uses == d.uses + [d.Place(state)];
    if success {
      RecordKeepsSorted(d, d.Place(state));
    }
    forall i | 0 <= i < |e.uses|
      ensures e.Passed(e.uses[i])
    {
      assert i < |d.uses| ==> d.Passed(d.uses[i]);
    }
  }

  /** A place that everything recorded is behind comes after it. */
  lemma RecordKeepsSorted(d: Half, u: Use)
    requires d.Sorted() && (forall i :: 0 <= i < |d.uses| ==> d.Passed(d.uses[i]))
    requires u == Use(Handshake, d.handshake.seqNum) || u == Use(Data(d.at.depth), d.lane.param.seqNum)
    ensures d.(uses := d.uses + [u]).Sorted()
  {
    var e := d.(uses := d.uses + [u]);
    forall i, j | 0 <= i < j < |e.uses| && SamePhase(e.uses[i], e.uses[j])
      ensures Before(e.uses[i], e.uses[j])
    {
      if j < |d.uses| {
        assert Before(d.uses[i], d.uses[j]);
      } else {
        assert d.Passed(d.uses[i]);
      }
    }
  }

  lemma CreateKeepsInv(x: Ctx, r: bool, d: Half)
    requires x.k.Valid() && d.Inv(x, r)
    ensures d.Create(x.k).Inv(x, r)
  {
    var e := d.Create(x.k);
    forall i | 0 <= i < |e.uses|
      ensures e.Passed(e.uses[i]) && (e.uses[i].phase.Data? ==> e.uses[i].phase.depth <= d.at.depth)
    {
      assert d.Passed(d.uses[i]);
    }
    assert e.Sorted() by {
      assert d.Sorted();
    }
  }

  lemma CommitKeepsInv(x: Ctx, r: bool, d: Half)
    requires d.Inv(x, r)
    ensures d.Commit().Inv(x, r)
  {
    var e := d.Commit();
    forall i | 0 <= i < |e.uses|
      ensures e.Passed(e.uses[i])
    {
      assert d.Passed(d.uses[i]);
    }
    assert e.Sorted() by {
      assert d.Sorted();
    }
  }

  lemma RollBackKeepsInv(x: Ctx, r: bool, d: Half)
    requires d.Inv(x, r) && d.CanRollBack()
    ensures d.RollBack().Inv(x, r)
  {
    var e := d.RollBack();
    forall i | 0 <= i < |e.uses|
      ensures e.Passed(e.uses[i])
    {
      assert d.Passed(d.uses[i]) && d.PassedInBackup(d.uses[i]);
    }
    assert e.Sorted() by {
      assert d.Sorted();
    }
  }

  /** An encryption and the message in it, whether or not it was handed out. */
  datatype Message = Message(query: Query, app: bytes)

  /** An accepted message, the bytes it was read from, and the size of the buffer it was read into. */
  datatype Receipt = Receipt(app: bytes, wire: bytes, capacity: nat)

  /** What an endpoint can be asked to do with its session. */
  datatype Op =
    | Encode(app: bytes, capacity: nat)
    | Decode(wire: bytes, capacity: nat)
    | Create(requester: bool, responder: bool)
    | Activate(requester: bool, responder: bool, useNewKey: bool)
    | SetState(state: SessionState)

  /** An endpoint: its role, its session, the record of what it encrypted and accepted, and whether it
      has panicked. It sends in its own direction and receives in the other. */
  datatype End = End(role: bool, s: Session, at: Pair<At>, back: Pair<Option<At>>, uses: Pair<seq<Use>>,
                     sent: seq<Message>, accepted: seq<Receipt>, halted: bool)
  {
    function HalfOf(r: bool): Half {
      Half(s.handshake.Get(r), s.app.Get(r), s.backup.Get(r), at.Get(r), back.Get(r), uses.Get(r))
    }

    /** What a run consists of: no step after a panic, and no rollback past a sent or accepted message. */
    predicate Proper(op: Op) {
      && !halted
      && match op
         case Activate(req, rsp, false) => (req ==> HalfOf(true).CanRollBack()) && (rsp ==> HalfOf(false).CanRollBack())
         case _ => true
    }

    /** The response direction is reached only when the request direction did not fail. */
    predicate Reached(k: KeySchedule, req: bool, rsp: bool) {
      rsp && (req ==> NextLane(k, s.app.request).1)
    }

    function Apply(x: Ctx, op: Op, log: set<Query>): End
      requires s.Valid() && x.Valid()
    {
      match op
      case Encode(app, capacity) =>
        var r := s.EncodeStep(x.c, app, capacity, role);
        var q := s.EncodeQuery(x.c, app, capacity, role);
        var b := this.(s := r.0, halted := halted || r.1.Abort?);
        if q.Some?
        then b.(uses := uses.Set(role, uses.Get(role) + [HalfOf(role).Place(s.state)]),
                sent := sent + [Message(q.value, app)])
        else b
      case Decode(wire, capacity) =>
        var r := s.DecodeStep(x.c, log, wire, capacity, !role);
        var b := this.(s := r.0, halted := halted || r.1.Abort?);
        if r.1.Ok?
        then b.(uses := uses.Set(!role, uses.Get(!role) + [HalfOf(!role).Place(s.state)]),
                accepted := accepted + [Receipt(r.1.value, wire, capacity)])
        else b
      case Create(req, rsp) =>
        var tried := Reached(x.k, req, rsp);
        this.(s := s.CreateStep(x.k, req, rsp).0,
              at := Pair(if req then NextAt(x.k, s.app.request, at.request) else at.request,
                         if tried then NextAt(x.k, s.app.response, at.response) else at.response),
              back := Pair(if req then Some(at.request) else back.request,
                           if tried then Some(at.response) else back.response))
      case Activate(req, rsp, useNewKey) =>
        this.(s := s.ActivateStep(req, rsp, useNewKey),
              at := if useNewKey then at else Pair(Restored(at.request, back.request, req), Restored(at.response, back.response, rsp)),
              back := if !useNewKey then back
                      else Pair(if req then None else back.request, if rsp then None else back.response))
      case SetState(state) =>
        this.(s := s.(state := state))
    }

    ghost predicate SentAt(x: Ctx, i: nat)
      requires i < |sent| && i < |uses.Get(role)|
    {
      var u, q := uses.Get(role)[i], sent[i].query;
      && x.Material(role, u.phase).Some?
      && q.key == x.Material(role, u.phase).value.0
      && |x.Material(role, u.phase).value.1| == IV_SIZE
      && q.iv == Iv(x.Material(role, u.phase).value.1, u.n)
      && q.plain == Plain(sent[i].app)
      && |sent[i].app| < 0x1_0000
      && u.n < U64_MAX
    }

    ghost predicate Inv(x: Ctx) {
      && s.Valid() && s.framing == x.base.framing
      && (!halted ==> HalfOf(true).Inv(x, true) && HalfOf(false).Inv(x, false))
      && HalfOf(true).Sorted() && HalfOf(false).Sorted()
      && |sent| == |uses.Get(role)|
      && |accepted| == |uses.Get(!role)|
      && (forall i {:trigger sent[i]} :: 0 <= i < |sent| ==> SentAt(x, i))
    }
  }

  function Restored(at: At, back: Option<At>, rolledBack: bool): At {
    if rolledBack && back.Some? then back.value else at
  }

  /** An attempt touches the half of its direction and nothing else. */
  lemma EncodeShape(x: Ctx, a: End, app: bytes, capacity: nat, log: set<Query>)
    requires x.Valid() && a.s.Valid() && !a.halted
    ensures var b := a.Apply(x, Encode(app, capacity), log);
            var used := a.s.EncodeQuery(x.c, app, capacity, a.role).Some?;
            && b.s.Valid() && b.s.framing == a.s.framing && b.role == a.role && b.accepted == a.accepted
            && b.HalfOf(!a.role) == a.HalfOf(!a.role)
            && (used ==> a.s.Live())
            && if b.halted then b.HalfOf(a.role) == a.HalfOf(a.role).(uses := b.uses.Get(a.role))
               else if b.HalfOf(a.role) == a.HalfOf(a.role) then !used
               else b.HalfOf(a.role) == a.HalfOf(a.role).Attempt(a.s.state, used) && a.s.CanTick(a.role)
  {
    AttemptedIff(a.s.framing, x.c, a.s.Param(a.role), app, capacity);
  }

  lemma DecodeShape(x: Ctx, a: End, wire: bytes, capacity: nat, log: set<Query>)
    requires x.Valid() && a.s.Valid() && !a.halted
    ensures var b := a.Apply(x, Decode(wire, capacity), log);
            var ok := a.s.DecodeStep(x.c, log, wire, capacity, !a.role).1.Ok?;
            && b.s.Valid() && b.s.framing == a.s.framing && b.role == a.role && b.sent == a.sent
            && b.HalfOf(a.role) == a.HalfOf(a.role)
            && (ok ==> a.s.Live())
            && if !ok && b.HalfOf(!a.role) == a.HalfOf(!a.role) then true
               else b.HalfOf(!a.role) == a.HalfOf(!a.role).Attempt(a.s.state, ok) && a.s.CanTick(!a.role)
  {
  }

  /** The new entry of the sent record is the encryption of this message at this place. */
  lemma EncodeRecords(x: Ctx, a: End, app: bytes, capacity: nat, log: set<Query>)
    requires x.Valid() && a.Inv(x) && !a.halted
    requires a.s.EncodeQuery(x.c, app, capacity, a.role).Some?
    ensures var b := a.Apply(x, Encode(app, capacity), log);
            && |b.sent| == |a.sent| + 1 && |b.uses.Get(a.role)| == |b.sent| && b.role == a.role && b.SentAt(x, |a.sent|)
            && b.uses.Get(a.role) == a.uses.Get(a.role) + [a.HalfOf(a.role).Place(a.s.state)]
  {
    AttemptedIff(a.s.framing, x.c, a.s.Param(a.role), app, capacity);
    assert a.HalfOf(a.role).Inv(x, a.role);
  }

  lemma EncodeKeepsInv(x: Ctx, a: End, app: bytes, capacity: nat, log: set<Query>)
    requires x.Valid() && a.Inv(x) && !a.halted
    ensures a.Apply(x, Encode(app, capacity), log).Inv(x)
  {
    var used := a.s.EncodeQuery(x.c, app, capacity, a.role).Some?;
    var b := a.Apply(x, Encode(app, capacity), log);
    var h := a.HalfOf(a.role);
    EncodeShape(x, a, app, capacity, log);
    if used {
      EncodeRecords(x, a, app, capacity, log);
      RecordKeepsSorted(h, h.Place(a.s.state));
    }
    if !b.halted && b.HalfOf(a.role) != h {
      AttemptKeepsInv(x, a.role, h, a.s.state, used);
    }
    forall i | 0 <= i < |b.sent|
      ensures b.SentAt(x, i)
    {
      assert i < |a.sent| ==> a.SentAt(x, i);
    }
  }

  lemma DecodeKeepsInv(x: Ctx, a: End, wire: bytes, capacity: nat, log: set<Query>)
    requires x.Valid() && a.Inv(x) && !a.halted
    ensures a.Apply(x, Decode(wire, capacity), log).Inv(x)
  {
    var ok := a.s.DecodeStep(x.c, log, wire, capacity, !a.role).1.Ok?;
    var b := a.Apply(x, Decode(wire, capacity), log);
    DecodeShape(x, a, wire, capacity, log);
    if b.HalfOf(!a.role) != a.HalfOf(!a.role) {
      AttemptKeepsInv(x, !a.role, a.HalfOf(!a.role), a.s.state, ok);
    }
    assert b.uses.Get(a.role) == a.HalfOf(a.role).uses;
    forall i | 0 <= i < |b.sent|
      ensures b.SentAt(x, i)
    {
      assert a.SentAt(x, i);
    }
  }

  /** A creation takes each direction it reaches one derivation further, or part of the way. */
  lemma CreateShape(x: Ctx, a: End, req: bool, rsp: bool, log: set<Query>)
    requires x.Valid() && a.s.Valid()
    ensures var b := a.Apply(x, Create(req, rsp), log);
            && b.HalfOf(true) == (if req then a.HalfOf(true).Create(x.k) else a.HalfOf(true))
            && b.HalfOf(false) == (if a.Reached(x.k, req, rsp) then a.HalfOf(false).Create(x.k) else a.HalfOf(false))
  {
  }

  lemma ActivateShape(x: Ctx, a: End, req: bool, rsp: bool, useNewKey: bool, log: set<Query>)
    requires x.Valid() && a.s.Valid()
    requires !useNewKey ==> (req ==> a.back.request.Some?) && (rsp ==> a.back.response.Some?)
    ensures var b := a.Apply(x, Activate(req, rsp, useNewKey), log);
            && b.HalfOf(true) == (if !req then a.HalfOf(true)
                                  else if useNewKey then a.HalfOf(true).Commit() else a.HalfOf(true).RollBack())
            && b.HalfOf(false) == (if !rsp then a.HalfOf(false)
                                   else if useNewKey then a.HalfOf(false).Commit() else a.HalfOf(false).RollBack())
  {
  }

  /** Key updates change no record of what was sent. */
  lemma RecordsKept(x: Ctx, a: End, b: End)
    requires a.Inv(x) && b.s.Valid() && b.HalfOf(true).Inv(x, true) && b.HalfOf(false).Inv(x, false)
    requires b.s.framing == a.s.framing
    requires b.role == a.role && b.uses == a.uses && b.sent == a.sent && b.accepted == a.accepted
    ensures b.Inv(x)
  {
    forall i | 0 <= i < |b.sent|
      ensures b.SentAt(x, i)
    {
      assert a.SentAt(x, i);
    }
  }

  lemma CreateKeepsEndInv(x: Ctx, a: End, req: bool, rsp: bool, log: set<Query>)
    requires x.Valid() && a.Inv(x) && !a.halted
    ensures a.Apply(x, Create(req, rsp), log).Inv(x)
  {
    CreateShape(x, a, req, rsp, log);
    if req {
      CreateKeepsInv(x, true, a.HalfOf(true));
    }
    if a.Reached(x.k, req, rsp) {
      CreateKeepsInv(x, false, a.HalfOf(false));
    }
    StepsKeepValid(a.s, x.c, log, x.k, [], 0, req, rsp, false);
    RecordsKept(x, a, a.Apply(x, Create(req, rsp), log));
  }

  lemma ActivateKeepsEndInv(x: Ctx, a: End, req: bool, rsp: bool, useNewKey: bool, log: set<Query>)
    requires x.Valid() && a.Inv(x) && a.Proper(Activate(req, rsp, useNewKey))
    ensures a.Apply(x, Activate(req, rsp, useNewKey), log).Inv(x)
  {
    ActivateShape(x, a, req, rsp, useNewKey, log);
    if useNewKey {
      CommitKeepsInv(x, true, a.HalfOf(true));
      CommitKeepsInv(x, false, a.HalfOf(false));
    } else {
      if req {
        RollBackKeepsInv(x, true, a.HalfOf(true));
      }
      if rsp {
        RollBackKeepsInv(x, false, a.HalfOf(false));
      }
    }
    StepsKeepValid(a.s, x.c, log, x.k, [], 0, req, rsp, useNewKey);
    RecordsKept(x, a, a.Apply(x, Activate(req, rsp, useNewKey), log));
  }

  /** Every step of an endpoint keeps its invariant, whatever the peer or the adversary logged. */
  lemma ApplyKeepsInv(x: Ctx, a: End, op: Op, log: set<Query>)
    requires x.Valid() && a.Inv(x) && a.Proper(op)
    ensures a.Apply(x, op, log).Inv(x)
  {
    match op
    case Encode(app, capacity) => EncodeKeepsInv(x, a, app, capacity, log);
    case Decode(wire, capacity) => DecodeKeepsInv(x, a, wire, capacity, log);
    case Create(req, rsp) => CreateKeepsEndInv(x, a, req, rsp, log);
    case Activate(req, rsp, useNewKey) => ActivateKeepsEndInv(x, a, req, rsp, useNewKey, log);
    case SetState(state) => RecordsKept(x, a, a.Apply(x, op, log));
  }

  /** An endpoint that has just taken over the handshake's key material; only its role is free. */
  ghost predicate Fresh(x: Ctx, a: End) {
    && a.s.Valid() && a.s.framing == x.base.framing
    && a.s.handshake == x.base.handshake && a.s.app == x.base.app
    && a.at == Pair(At(0, 0), At(0, 0)) && a.back == Pair(None, None) && a.uses == Pair([], [])
    && a.sent == [] && a.accepted == [] && !a.halted
  }

  lemma FreshInv(x: Ctx, a: End)
    requires x.Valid() && Fresh(x, a)
    ensures a.Inv(x)
  {
    assert a.HalfOf(true).Inv(x, true) && a.HalfOf(false).Inv(x, false);
  }
}
