/** Safety over all runs of a requester, a responder and an adversary who sees every message,
    drops, replays, reorders and forges them, and runs other sessions under other keys. */
module Delivery {
  import opened Bytes
  import opened Aead
  import opened SecuredMessage
  import opened Session
  import opened Channel

  datatype World = World(req: End, rsp: End, foreign: set<Query>) {

    /** Everything encrypted so far by anyone. */
    ghost function Log(): set<Query> {
      Queries(req) + Queries(rsp) + foreign
    }

    ghost predicate Valid() {
      req.s.Valid() && rsp.s.Valid()
    }
  }

  ghost function Queries(a: End): set<Query> {
    set i | 0 <= i < |a.sent| :: a.sent[i].query
  }

  /** A step of either endpoint, or an encryption outside the session. What the adversary puts on
      the wire is the argument of a `Decode`, and is arbitrary. */
  datatype Event = Req(op: Op) | Rsp(op: Op) | Foreign(q: Query)

  ghost predicate Step(x: Ctx, w: World, e: Event, w': World) {
    && x.Valid() && w.Valid()
    && match e
       case Req(op) => w.req.Proper(op) && w' == w.(req := w.req.Apply(x, op, w.Log()))
       case Rsp(op) => w.rsp.Proper(op) && w' == w.(rsp := w.rsp.Apply(x, op, w.Log()))
       case Foreign(q) => x.ForeignKey(q.key) && w' == w.(foreign := w.foreign + {q})
  }

  /** A run from the end of the handshake; `es[i]` leads from `ws[i]` to `ws[i + 1]`. */
  ghost predicate Steps(x: Ctx, ws: seq<World>, es: seq<Event>) {
    && |ws| == |es| + 1
    && Fresh(x, ws[0].req) && ws[0].req.role
    && Fresh(x, ws[0].rsp) && !ws[0].rsp.role
    && ws[0].foreign == {}
    && forall i :: 0 <= i < |es| ==> Step(x, ws[i], es[i], ws[i + 1])
  }

  ghost predicate IsRun(x: Ctx, ws: seq<World>, es: seq<Event>) {
    x.Valid() && x.KeysDistinct() && Steps(x, ws, es)
  }

  /** The `i`-th message `rcv` accepted is the `k`-th message `snd` sent, at the same place. */
  ghost predicate Matches(snd: End, rcv: End, i: nat, k: nat) {
    && i < |rcv.accepted| && i < |rcv.uses.Get(snd.role)| && k < |snd.sent| && k < |snd.uses.Get(snd.role)|
    && snd.uses.Get(snd.role)[k] == rcv.uses.Get(snd.role)[i]
    && snd.sent[k].app == rcv.accepted[i].app
  }

  ghost predicate HasSource(snd: End, rcv: End, i: nat) {
    exists k: nat :: Matches(snd, rcv, i, k)
  }

  ghost predicate Authentic(snd: End, rcv: End) {
    forall i: nat {:trigger HasSource(snd, rcv, i)} :: i < |rcv.accepted| ==> HasSource(snd, rcv, i)
  }

  /** The bytes of the `i`-th accepted message are those of a logged encryption at its place. */
  ghost predicate DecodesAt(x: Ctx, rcv: End, log: set<Query>, i: nat)
    requires x.Valid()
  {
    && i < |rcv.accepted| && i < |rcv.uses.Get(!rcv.role)|
    && var u, m := rcv.uses.Get(!rcv.role)[i], x.Material(!rcv.role, rcv.uses.Get(!rcv.role)[i].phase);
       && m.Some? && |m.value.1| == IV_SIZE && u.n < U64_MAX
       && SecuredMessage.Decode(x.base.framing, x.c, log, SecretParam(m.value.0, m.value.1, u.n),
                                rcv.accepted[i].wire, rcv.accepted[i].capacity) == Ok(rcv.accepted[i].app)
  }

  ghost predicate Decodable(x: Ctx, rcv: End, log: set<Query>)
    requires x.Valid()
  {
    forall i: nat {:trigger DecodesAt(x, rcv, log, i)} :: i < |rcv.accepted| ==> DecodesAt(x, rcv, log, i)
  }

  lemma MoreLogDecodes(x: Ctx, rcv: End, log: set<Query>, more: set<Query>)
    requires x.Valid() && Decodable(x, rcv, log) && log <= more
    ensures Decodable(x, rcv, more)
  {
    forall i: nat | i < |rcv.accepted|
      ensures DecodesAt(x, rcv, more, i)
    {
      assert DecodesAt(x, rcv, log, i);
      var u, m := rcv.uses.Get(!rcv.role)[i], x.Material(!rcv.role, rcv.uses.Get(!rcv.role)[i].phase);
      DecodeMonotone(x.base.framing, x.c, log, more, SecretParam(m.value.0, m.value.1, u.n),
                     rcv.accepted[i].wire, rcv.accepted[i].capacity);
    }
  }

  ghost predicate Inv(x: Ctx, w: World)
    requires x.Valid()
  {
    && w.req.Inv(x) && w.req.role
    && w.rsp.Inv(x) && !w.rsp.role
    && (forall q :: q in w.foreign ==> x.ForeignKey(q.key))
    && Authentic(w.req, w.rsp) && Authentic(w.rsp, w.req)
    && Decodable(x, w.req, w.Log()) && Decodable(x, w.rsp, w.Log())
  }

  /** A logged encryption under the key of an epoch of `snd`'s direction was made by `snd`, there. */
  lemma FindSender(x: Ctx, snd: End, rcv: End, foreign: set<Query>, q: Query, u: Use) returns (k: nat)
    requires x.KeysDistinct() && snd.Inv(x) && rcv.Inv(x) && snd.role != rcv.role
    requires forall f :: f in foreign ==> x.ForeignKey(f.key)
    requires q in Queries(snd) + Queries(rcv) + foreign
    requires x.Material(snd.role, u.phase).Some? && q.key == x.Material(snd.role, u.phase).value.0
    requires |x.Material(snd.role, u.phase).value.1| == IV_SIZE && u.n <= U64_MAX
    requires q.iv == Iv(x.Material(snd.role, u.phase).value.1, u.n)
    ensures k < |snd.sent| && snd.sent[k].query == q && snd.uses.Get(snd.role)[k] == u
  {
    forall j | 0 <= j < |rcv.sent|
      ensures rcv.sent[j].query != q
    {
      assert rcv.SentAt(x, j);
    }
    assert q in Queries(snd);
    k :| 0 <= k < |snd.sent| && snd.sent[k].query == q;
    assert snd.SentAt(x, k);
    IvInjective(x.Material(snd.role, u.phase).value.1, u.n, snd.uses.Get(snd.role)[k].n);
  }

  /** What a receiver accepts, the sender sent at that very place. */
  lemma AcceptedWasSent(x: Ctx, snd: End, rcv: End, foreign: set<Query>, wire: bytes, capacity: nat) returns (k: nat)
    requires x.Valid() && x.KeysDistinct() && snd.Inv(x) && rcv.Inv(x) && snd.role != rcv.role && !rcv.halted
    requires forall f :: f in foreign ==> x.ForeignKey(f.key)
    requires rcv.s.DecodeStep(x.c, Queries(snd) + Queries(rcv) + foreign, wire, capacity, snd.role).1.Ok?
    ensures k < |snd.sent| && snd.uses.Get(snd.role)[k] == rcv.HalfOf(snd.role).Place(rcv.s.state)
    ensures snd.sent[k].app == rcv.s.DecodeStep(x.c, Queries(snd) + Queries(rcv) + foreign, wire, capacity, snd.role).1.value
  {
    var log := Queries(snd) + Queries(rcv) + foreign;
    var p := rcv.s.Param(snd.role);
    var q := DecodeAuthentic(rcv.s.framing, x.c, log, p, wire, capacity);
    assert rcv.HalfOf(snd.role).Inv(x, snd.role);
    k := FindSender(x, snd, rcv, foreign, q, rcv.HalfOf(snd.role).Place(rcv.s.state));
    assert snd.SentAt(x, k);
    PlainReadsBack(snd.sent[k].app, capacity);
  }

  /** Authenticity survives the sender sending more. */
  lemma SendKeepsAuthentic(snd: End, snd': End, rcv: End)
    requires Authentic(snd, rcv) && snd'.role == snd.role
    requires snd.sent <= snd'.sent && snd.uses.Get(snd.role) <= snd'.uses.Get(snd.role)
    ensures Authentic(snd', rcv)
  {
    forall i: nat | i < |rcv.accepted|
      ensures HasSource(snd', rcv, i)
    {
      assert HasSource(snd, rcv, i);
      var k: nat :| Matches(snd, rcv, i, k);
      assert Matches(snd', rcv, i, k);
    }
  }

  /** No step rewrites the record, and only a successful decoding adds an accepted message. */
  lemma RecordsGrow(x: Ctx, a: End, op: Op, log: set<Query>)
    requires x.Valid() && a.s.Valid()
    ensures var a' := a.Apply(x, op, log);
            && a'.role == a.role
            && a.sent <= a'.sent && a.uses.Get(a.role) <= a'.uses.Get(a.role)
            && if op.Decode? && a.s.DecodeStep(x.c, log, op.wire, op.capacity, !a.role).1.Ok?
               then && a'.accepted == a.accepted + [Receipt(a.s.DecodeStep(x.c, log, op.wire, op.capacity, !a.role).1.value, op.wire, op.capacity)]
                    && a'.uses.Get(!a.role) == a.uses.Get(!a.role) + [a.HalfOf(!a.role).Place(a.s.state)]
               else a'.accepted == a.accepted && a'.uses.Get(!a.role) == a.uses.Get(!a.role)
  {
  }

  /** One step of `a`, facing `b`: what `a` accepts was sent by `b`. */
  lemma ReceiveKeepsAuthentic(x: Ctx, a: End, b: End, foreign: set<Query>, op: Op)
    requires x.Valid() && x.KeysDistinct() && a.Inv(x) && b.Inv(x) && a.role != b.role && !a.halted
    requires forall f :: f in foreign ==> x.ForeignKey(f.key)
    requires Authentic(b, a)
    ensures Authentic(b, a.Apply(x, op, Queries(b) + Queries(a) + foreign))
  {
    var log := Queries(b) + Queries(a) + foreign;
    var a' := a.Apply(x, op, log);
    RecordsGrow(x, a, op, log);
    forall i: nat | i < |a'.accepted|
      ensures HasSource(b, a', i)
    {
      if i < |a.accepted| {
        assert HasSource(b, a, i);
        var k: nat :| Matches(b, a, i, k);
        assert Matches(b, a', i, k);
      } else {
        var k := AcceptedWasSent(x, b, a, foreign, op.wire, op.capacity);
        assert Matches(b, a', i, k);
      }
    }
  }

  /** What an endpoint accepts is decodable at the place it is recorded with. */
  lemma AcceptKeepsDecodable(x: Ctx, a: End, log: set<Query>, op: Op)
    requires x.Valid() && a.Inv(x) && !a.halted && Decodable(x, a, log)
    ensures Decodable(x, a.Apply(x, op, log), log)
  {
    var a' := a.Apply(x, op, log);
    RecordsGrow(x, a, op, log);
    forall i: nat | i < |a'.accepted|
      ensures DecodesAt(x, a', log, i)
    {
      if i < |a.accepted| {
        assert DecodesAt(x, a, log, i);
      } else {
        assert a.HalfOf(!a.role).Inv(x, !a.role);
      }
    }
  }

  /** One proper step of `a`, facing `b`. */
  lemma EndStep(x: Ctx, a: End, b: End, foreign: set<Query>, op: Op)
    requires x.Valid() && x.KeysDistinct() && a.Inv(x) && b.Inv(x) && a.role != b.role && a.Proper(op)
    requires forall f :: f in foreign ==> x.ForeignKey(f.key)
    requires Authentic(b, a) && Authentic(a, b)
    ensures var a' := a.Apply(x, op, Queries(b) + Queries(a) + foreign);
            && a'.Inv(x) && a'.role == a.role && Authentic(b, a') && Authentic(a', b)
            && Queries(a) <= Queries(a')
  {
    var log := Queries(b) + Queries(a) + foreign;
    ApplyKeepsInv(x, a, op, log);
    ReceiveKeepsAuthentic(x, a, b, foreign, op);
    RecordsGrow(x, a, op, log);
    SendKeepsAuthentic(a, a.Apply(x, op, log), b);
    QueriesGrow(a, a.Apply(x, op, log));
  }

  lemma QueriesGrow(a: End, a': End)
    requires a.sent <= a'.sent
    ensures Queries(a) <= Queries(a')
  {
    forall q | q in Queries(a)
      ensures q in Queries(a')
    {
      var i :| 0 <= i < |a.sent| && a.sent[i].query == q;
      assert a'.sent[i].query == q;
    }
  }

  lemma StepKeepsInv(x: Ctx, w: World, e: Event, w': World)
    requires x.Valid() && x.KeysDistinct() && Inv(x, w) && Step(x, w, e, w')
    ensures Inv(x, w')
  {
    match e {
    case Req(op) =>
      assert w.Log() == Queries(w.rsp) + Queries(w.req) + w.foreign;
      EndStep(x, w.req, w.rsp, w.foreign, op);
      AcceptKeepsDecodable(x, w.req, w.Log(), op);
    case Rsp(op) =>
      EndStep(x, w.rsp, w.req, w.foreign, op);
      AcceptKeepsDecodable(x, w.rsp, w.Log(), op);
    case Foreign(_) =>
    }
    MoreLogDecodes(x, w'.req, w.Log(), w'.Log());
    MoreLogDecodes(x, w'.rsp, w.Log(), w'.Log());
  }

  lemma {:induction false} RunKeepsInv(x: Ctx, ws: seq<World>, es: seq<Event>)
    requires IsRun(x, ws, es)
    ensures Inv(x, ws[|es|])
    decreases |es|
  {
    var n := |es|;
    if n == 0 {
      FreshInv(x, ws[0].req);
      FreshInv(x, ws[0].rsp);
    } else {
      RunKeepsInv(x, ws[..n], es[..n - 1]);
      StepKeepsInv(x, ws[n - 1], es[n - 1], ws[n]);
    }
  }

  /** `idx` places each accepted message in the sender's sequence; within the handshake, and within
      the data phase across all its key updates, later means strictly later. */
  ghost predicate InOrder(snd: End, rcv: End, idx: seq<nat>) {
    && |idx| == |rcv.accepted| == |rcv.uses.Get(snd.role)|
    && (forall i :: 0 <= i < |idx| ==> Matches(snd, rcv, i, idx[i]))
    && forall i, j :: 0 <= i < j < |idx| && SamePhase(rcv.uses.Get(snd.role)[i], rcv.uses.Get(snd.role)[j]) ==> idx[i] < idx[j]
  }

  lemma InOrderDelivery(x: Ctx, snd: End, rcv: End) returns (idx: seq<nat>)
    requires snd.Inv(x) && rcv.Inv(x) && snd.role != rcv.role && Authentic(snd, rcv)
    ensures InOrder(snd, rcv, idx)
  {
    idx := [];
    while |idx| < |rcv.accepted|
      invariant |idx| <= |rcv.accepted|
      invariant forall i :: 0 <= i < |idx| ==> Matches(snd, rcv, i, idx[i])
    {
      assert HasSource(snd, rcv, |idx|);
      var k: nat :| Matches(snd, rcv, |idx|, k);
      idx := idx + [k];
    }
    var us, ur := snd.uses.Get(snd.role), rcv.uses.Get(snd.role);
    assert snd.HalfOf(snd.role).Sorted() && rcv.HalfOf(snd.role).Sorted();
    forall i, j | 0 <= i < j < |idx| && SamePhase(ur[i], ur[j])
      ensures idx[i] < idx[j]
    {
      assert Matches(snd, rcv, i, idx[i]) && Matches(snd, rcv, j, idx[j]);
      assert Before(ur[i], ur[j]);
      assert idx[j] < idx[i] ==> Before(us[idx[j]], us[idx[i]]);
    }
  }

  /** Ordered authentic delivery, in both directions, at the end of every run. */
  lemma OrderedDelivery(x: Ctx, ws: seq<World>, es: seq<Event>) returns (toResponder: seq<nat>, toRequester: seq<nat>)
    requires IsRun(x, ws, es)
    ensures InOrder(ws[|es|].req, ws[|es|].rsp, toResponder)
    ensures InOrder(ws[|es|].rsp, ws[|es|].req, toRequester)
  {
    RunKeepsInv(x, ws, es);
    toResponder := InOrderDelivery(x, ws[|es|].req, ws[|es|].rsp);
    toRequester := InOrderDelivery(x, ws[|es|].rsp, ws[|es|].req);
  }

  /** Two encryptions of a run never share key and nonce. */
  ghost predicate NoncesFresh(a: End, b: End) {
    && (forall i, j :: 0 <= i < j < |a.sent| ==>
          (a.sent[i].query.key, a.sent[i].query.iv) != (a.sent[j].query.key, a.sent[j].query.iv))
    && (forall i, j :: 0 <= i < |a.sent| && 0 <= j < |b.sent| ==> a.sent[i].query.key != b.sent[j].query.key)
  }

  lemma InvMeansFresh(x: Ctx, a: End, b: End)
    requires x.KeysDistinct() && a.Inv(x) && b.Inv(x) && a.role != b.role
    ensures NoncesFresh(a, b)
  {
    var us := a.uses.Get(a.role);
    assert a.HalfOf(a.role).Sorted();
    forall i, j | 0 <= i < j < |a.sent|
      ensures (a.sent[i].query.key, a.sent[i].query.iv) != (a.sent[j].query.key, a.sent[j].query.iv)
    {
      assert a.SentAt(x, i) && a.SentAt(x, j);
      assert SamePhase(us[i], us[j]) ==> Before(us[i], us[j]);
      if a.sent[i].query.key == a.sent[j].query.key && a.sent[i].query.iv == a.sent[j].query.iv {
        IvInjective(x.Material(a.role, us[i].phase).value.1, us[i].n, us[j].n);
      }
    }
    forall i, j | 0 <= i < |a.sent| && 0 <= j < |b.sent|
      ensures a.sent[i].query.key != b.sent[j].query.key
    {
      assert a.SentAt(x, i) && b.SentAt(x, j);
    }
  }

  /** Nonce freshness over every run, although creation resets the counter and rollback restores an old one. */
  lemma NonceFreshness(x: Ctx, ws: seq<World>, es: seq<Event>)
    requires IsRun(x, ws, es)
    ensures NoncesFresh(ws[|es|].req, ws[|es|].rsp)
    ensures NoncesFresh(ws[|es|].rsp, ws[|es|].req)
  {
    RunKeepsInv(x, ws, es);
    InvMeansFresh(x, ws[|es|].req, ws[|es|].rsp);
    InvMeansFresh(x, ws[|es|].rsp, ws[|es|].req);
  }
}
