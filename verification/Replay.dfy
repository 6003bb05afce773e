/** When rolling a key update back is safe for the receiver: exactly when nothing was accepted past the
    backup. Otherwise a message that was accepted is accepted again. */
module Replay {
  import opened Bytes
  import opened Aead
  import opened SecuredMessage
  import opened Session
  import opened Channel
  import opened Delivery
  import opened KeyUpdate

  /** The step of the requester or the responder. */
  function Turn(r: bool, op: Op): Event {
    if r then Req(op) else Rsp(op)
  }

  function Of(w: World, r: bool): End {
    if r then w.req else w.rsp
  }

  function With(w: World, r: bool, a: End): World {
    if r then w.(req := a) else w.(rsp := a)
  }

  ghost predicate TakenAt(x: Ctx, ws: seq<World>, es: seq<Event>, i: nat)
    requires |ws| == |es| + 1
  {
    i < |es| && Step(x, ws[i], es[i], ws[i + 1])
  }

  /** A continuation of `w` by steps of either endpoint and of the adversary. */
  ghost predicate Follows(x: Ctx, w: World, ws: seq<World>, es: seq<Event>) {
    && |ws| == |es| + 1 && ws[0] == w
    && forall i: nat {:trigger TakenAt(x, ws, es, i)} :: i < |es| ==> TakenAt(x, ws, es, i)
  }

  /** What `r` accepted is, at the end of every continuation, an in-order, duplicate-free part of what
      its peer sent. */
  ghost predicate DeliversFrom(x: Ctx, w: World, r: bool) {
    forall ws, es {:trigger Follows(x, w, ws, es)} ::
      Follows(x, w, ws, es) ==> Delivered(Of(ws[|es|], !r), Of(ws[|es|], r))
  }

  ghost predicate Delivered(snd: End, rcv: End) {
    exists idx :: InOrder(snd, rcv, idx)
  }

  lemma {:induction false} FollowsKeepsInv(x: Ctx, w: World, ws: seq<World>, es: seq<Event>, i: nat)
    requires x.Valid() && x.KeysDistinct() && Inv(x, w) && Follows(x, w, ws, es) && i <= |es|
    ensures Inv(x, ws[i])
    decreases i
  {
    if i > 0 {
      FollowsKeepsInv(x, w, ws, es, i - 1);
      assert TakenAt(x, ws, es, i - 1);
      TakenKeepsInv(x, ws, es, i - 1);
    }
  }

  lemma TakenKeepsInv(x: Ctx, ws: seq<World>, es: seq<Event>, i: nat)
    requires x.Valid() && x.KeysDistinct() && |ws| == |es| + 1 && TakenAt(x, ws, es, i) && Inv(x, ws[i])
    ensures Inv(x, ws[i + 1])
  {
    StepKeepsInv(x, ws[i], es[i], ws[i + 1]);
  }

  lemma InvDelivers(x: Ctx, w: World, r: bool)
    requires x.Valid() && x.KeysDistinct() && Inv(x, w)
    ensures DeliversFrom(x, w, r)
  {
    forall ws, es | Follows(x, w, ws, es)
      ensures Delivered(Of(ws[|es|], !r), Of(ws[|es|], r))
    {
      FollowsKeepsInv(x, w, ws, es, |es|);
      var idx := InOrderDelivery(x, Of(ws[|es|], !r), Of(ws[|es|], r));
    }
  }

  /** One more step of `r`. */
  lemma AppendTurn(x: Ctx, w: World, ws: seq<World>, es: seq<Event>, r: bool, op: Op) returns (next: World)
    requires x.Valid() && Follows(x, w, ws, es) && ws[|es|].Valid() && Of(ws[|es|], r).Proper(op)
    ensures next == With(ws[|es|], r, Of(ws[|es|], r).Apply(x, op, ws[|es|].Log()))
    ensures Follows(x, w, ws + [next], es + [Turn(r, op)])
  {
    next := With(ws[|es|], r, Of(ws[|es|], r).Apply(x, op, ws[|es|].Log()));
    forall i: nat | i < |es| + 1
      ensures TakenAt(x, ws + [next], es + [Turn(r, op)], i)
    {
      if i < |es| {
        assert TakenAt(x, ws, es, i);
      }
    }
  }

  lemma PlacesDistinct(h: Half, k: nat, l: nat)
    requires h.Sorted() && k < l < |h.uses|
    ensures h.uses[k] != h.uses[l]
  {
    assert SamePhase(h.uses[k], h.uses[l]) ==> Before(h.uses[k], h.uses[l]);
  }

  /** A message accepted twice at one place is not delivered in order. */
  lemma TwiceIsNotInOrder(x: Ctx, snd: End, rcv: End, i: nat, j: nat)
    requires snd.Inv(x) && i < j < |rcv.accepted| && snd.role != rcv.role && j < |rcv.uses.Get(snd.role)|
    requires rcv.uses.Get(snd.role)[i] == rcv.uses.Get(snd.role)[j]
    ensures !Delivered(snd, rcv)
  {
    assert snd.HalfOf(snd.role).Sorted();
    forall idx
      ensures !InOrder(snd, rcv, idx)
    {
      if InOrder(snd, rcv, idx) {
        assert Matches(snd, rcv, i, idx[i]) && Matches(snd, rcv, j, idx[j]);
        PlacesDistinct(snd.HalfOf(snd.role), idx[i], idx[j]);
      }
    }
  }

  // Getting back to the place of an accepted message

  const GARBAGE: Op := Decode([], 0)

  /** `b` is `a` after its receive counter moved by `m`. */
  ghost predicate Skipped(a: End, m: nat, b: End)
    requires a.s.Valid() && a.s.app.Get(!a.role).param.seqNum + m <= U64_MAX
  {
    var lane := a.s.app.Get(!a.role);
    b == a.(s := a.s.(app := a.s.app.Set(!a.role, lane.(param := lane.param.(seqNum := lane.param.seqNum + m)))))
  }

  /** Bytes that are no message move the receive counter and nothing else. */
  lemma SkipOne(x: Ctx, a: End, m: nat, b: End, log: set<Query>)
    requires x.Valid() && a.s.Valid() && a.s.state.Established? && !a.halted
    requires a.s.app.Get(!a.role).param.seqNum + m < U64_MAX && Skipped(a, m, b)
    ensures b.s.Valid() && Skipped(a, m + 1, b.Apply(x, GARBAGE, log))
  {
    var p := b.s.Param(!b.role);
    assert SecuredMessage.Decode(b.s.framing, x.c, log, p, [], 0) == Err(DecodeAeadFail);
  }

  lemma {:induction false} SkipTo(x: Ctx, w: World, ws: seq<World>, es: seq<Event>, r: bool, m: nat)
    returns (ws': seq<World>, es': seq<Event>)
    requires x.Valid() && Follows(x, w, ws, es) && ws[|es|].Valid() && Of(ws[|es|], r).role == r
    requires Of(ws[|es|], r).s.state.Established? && !Of(ws[|es|], r).halted
    requires Of(ws[|es|], r).s.app.Get(!r).param.seqNum + m <= U64_MAX
    ensures Follows(x, w, ws', es') && ws'[|es'|].Valid()
    ensures Skipped(Of(ws[|es|], r), m, Of(ws'[|es'|], r)) && ws'[|es'|] == With(ws[|es|], r, Of(ws'[|es'|], r))
    decreases m
  {
    if m == 0 {
      ws', es' := ws, es;
    } else {
      ws', es' := SkipTo(x, w, ws, es, r, m - 1);
      var last := ws'[|es'|];
      SkipOne(x, Of(ws[|es|], r), m - 1, Of(last, r), last.Log());
      var next := AppendTurn(x, w, ws', es', r, GARBAGE);
      ws', es' := ws' + [next], es' + [Turn(r, GARBAGE)];
    }
  }

  /** The same operations as turns of `r`. */
  lemma {:induction false} AsTurns(x: Ctx, w: World, r: bool, ends: seq<End>, ops: seq<Op>, logs: seq<set<Query>>, i: nat)
    returns (ws: seq<World>, es: seq<Event>)
    requires Continues(x, Of(w, r), ends, ops, logs) && w.Valid() && i <= |ops|
    requires forall k: nat :: k < |ops| ==> ops[k].SetState? || ops[k].Create?
    ensures Follows(x, w, ws, es) && ws[|es|].Valid() && ws[|es|] == With(w, r, ends[i])
    decreases i
  {
    if i == 0 {
      ws, es := [w], [];
    } else {
      ws, es := AsTurns(x, w, r, ends, ops, logs, i - 1);
      assert Taken(x, ends, ops, logs, i - 1);
      var next := AppendTurn(x, w, ws, es, r, ops[i - 1]);
      if ops[i - 1].Create? {
        StepsKeepValid(ends[i - 1].s, x.c, {}, x.k, [], 0, ops[i - 1].requester, ops[i - 1].responder, false);
      }
      ws, es := ws + [next], es + [Turn(r, ops[i - 1])];
    }
  }

  lemma SameLog(w: World, r: bool, a: End)
    requires a.sent == Of(w, r).sent
    ensures With(w, r, a).Log() == w.Log()
  {
    assert Queries(a) == Queries(Of(w, r));
  }

  /** With the keys and the counter of an accepted message back, its bytes are accepted again. */
  lemma AcceptedAgain(x: Ctx, a: End, log: set<Query>, i: nat, c: End)
    requires x.Valid() && DecodesAt(x, a, log, i) && c.role == a.role && c.s.framing == x.base.framing
    requires c.accepted == a.accepted && c.uses == a.uses
    requires ReadyFor(x, c, !a.role, a.uses.Get(!a.role)[i])
    requires c.s.app.Get(!a.role).param.seqNum == a.uses.Get(!a.role)[i].n
    ensures var d := c.Apply(x, Decode(a.accepted[i].wire, a.accepted[i].capacity), log);
            && d.accepted == a.accepted + [a.accepted[i]] && d.role == a.role
            && d.uses.Get(!a.role) == a.uses.Get(!a.role) + [a.uses.Get(!a.role)[i]]
  {
    var u, m := a.uses.Get(!a.role)[i], x.Material(!a.role, a.uses.Get(!a.role)[i].phase);
    assert c.s.Param(!a.role) == SecretParam(m.value.0, m.value.1, u.n);
  }

  /** After a rollback past the `i`-th accepted message, `r` can get back to its keys and counter. */
  lemma BackAtPlace(x: Ctx, w: World, r: bool, i: nat) returns (ws: seq<World>, es: seq<Event>, c: End)
    requires x.Valid() && Inv(x, w) && !Of(w, r).halted && Of(w, r).back.Get(!r).Some?
    requires i < |Of(w, r).accepted| && !Of(w, r).HalfOf(!r).PassedInBackup(Of(w, r).uses.Get(!r)[i])
    ensures Follows(x, With(w, r, RolledBack(x, Of(w, r), !r)), ws, es)
    ensures ws[|es|] == With(w, r, c) && ws[|es|].Valid() && c.role == r && c.s.framing == x.base.framing
    ensures c.accepted == Of(w, r).accepted && c.uses == Of(w, r).uses && c.sent == Of(w, r).sent
    ensures ReadyFor(x, c, !r, Of(w, r).uses.Get(!r)[i])
    ensures c.s.app.Get(!r).param.seqNum == Of(w, r).uses.Get(!r)[i].n
  {
    var a := Of(w, r);
    assert DecodesAt(x, a, w.Log(), i);
    RolledBackValid(x, a, !r);
    var ends, ops, logs := Resume(x, a, !r, a.uses.Get(!r)[i]);
    ws, es, c := SkipToPlace(x, With(w, r, RolledBack(x, a, !r)), r, a.uses.Get(!r)[i], ends, ops, logs);
  }

  lemma SkipToPlace(x: Ctx, start: World, r: bool, u: Use, ends: seq<End>, ops: seq<Op>, logs: seq<set<Query>>)
    returns (ws: seq<World>, es: seq<Event>, c: End)
    requires Continues(x, Of(start, r), ends, ops, logs) && start.Valid()
    requires forall k: nat :: k < |ops| ==> ops[k].SetState? || ops[k].Create?
    requires ReadyFor(x, ends[|ops|], !r, u) && ends[|ops|].role == r && u.n < U64_MAX
    ensures Follows(x, start, ws, es)
    ensures ws[|es|] == With(start, r, c) && ws[|es|].Valid() && c.role == r && c.s.framing == ends[|ops|].s.framing
    ensures c.accepted == ends[|ops|].accepted && c.uses == ends[|ops|].uses && c.sent == ends[|ops|].sent
    ensures ReadyFor(x, c, !r, u) && c.s.app.Get(!r).param.seqNum == u.n
  {
    var b := ends[|ops|];
    ws, es := AsTurns(x, start, r, ends, ops, logs, |ops|);
    ws, es := SkipTo(x, start, ws, es, r, u.n - b.s.app.Get(!r).param.seqNum);
    c := Of(ws[|es|], r);
    SkippedReady(x, b, r, u, c);
  }

  lemma SkippedReady(x: Ctx, b: End, r: bool, u: Use, c: End)
    requires b.role == r && ReadyFor(x, b, !r, u) && u.n <= U64_MAX
    requires Skipped(b, u.n - b.s.app.Get(!r).param.seqNum, c)
    ensures ReadyFor(x, c, !r, u) && c.s.app.Get(!r).param.seqNum == u.n
  {
  }

  /** After a rollback past the `i`-th accepted message there is a continuation in which the same bytes
      are accepted a second time, at the same place. */
  lemma ReplayRun(x: Ctx, w: World, r: bool, i: nat) returns (ws: seq<World>, es: seq<Event>)
    requires x.Valid() && Inv(x, w) && !Of(w, r).halted && Of(w, r).back.Get(!r).Some?
    requires i < |Of(w, r).accepted| && !Of(w, r).HalfOf(!r).PassedInBackup(Of(w, r).uses.Get(!r)[i])
    ensures Follows(x, With(w, r, RolledBack(x, Of(w, r), !r)), ws, es) && |ws| == |es| + 1
    ensures var a, b := Of(w, r), Of(ws[|es|], r);
            && b.role == r && b.accepted == a.accepted + [a.accepted[i]]
            && b.uses.Get(!r) == a.uses.Get(!r) + [a.uses.Get(!r)[i]]
    ensures Of(ws[|es|], !r) == Of(w, !r)
  {
    var a, c := Of(w, r), Of(w, r);
    assert DecodesAt(x, a, w.Log(), i);
    var start := With(w, r, RolledBack(x, a, !r));
    ws, es, c := BackAtPlace(x, w, r, i);
    SameLog(w, r, c);
    AcceptedAgain(x, a, w.Log(), i, c);
    var op := Decode(a.accepted[i].wire, a.accepted[i].capacity);
    var next := AppendTurn(x, start, ws, es, r, op);
    ws, es := ws + [next], es + [Turn(r, op)];
  }

  /** A rollback past no accepted message: every continuation delivers in order and without duplicates. */
  lemma UnusedRollBackDelivers(x: Ctx, w: World, r: bool)
    requires x.Valid() && x.KeysDistinct() && Inv(x, w) && !Of(w, r).halted && Of(w, r).back.Get(!r).Some?
    requires Of(w, r).HalfOf(!r).CanRollBack()
    ensures DeliversFrom(x, With(w, r, RolledBack(x, Of(w, r), !r)), r)
  {
    var start := With(w, r, RolledBack(x, Of(w, r), !r));
    StepKeepsInv(x, w, Turn(r, Activate(!r, r, false)), start);
    InvDelivers(x, start, r);
  }

  /** A rollback past an accepted message: some continuation accepts it again. */
  lemma UsedRollBackReplays(x: Ctx, w: World, r: bool)
    requires x.Valid() && x.KeysDistinct() && Inv(x, w) && !Of(w, r).halted && Of(w, r).back.Get(!r).Some?
    requires !Of(w, r).HalfOf(!r).CanRollBack()
    ensures !DeliversFrom(x, With(w, r, RolledBack(x, Of(w, r), !r)), r)
  {
    var a := Of(w, r);
    var i :| 0 <= i < |a.uses.Get(!r)| && !a.HalfOf(!r).PassedInBackup(a.uses.Get(!r)[i]);
    var ws, es := ReplayRun(x, w, r, i);
    TwiceIsNotInOrder(x, Of(ws[|es|], !r), Of(ws[|es|], r), i, |a.accepted|);
  }

  /** For an endpoint whose backup holds keys of its receiving direction: every continuation of a rollback
      delivers in order and without duplicates if and only if nothing was accepted past the backup. */
  lemma ReceiveRollBackSafeIff(x: Ctx, w: World, r: bool)
    requires x.Valid() && x.KeysDistinct() && Inv(x, w) && !Of(w, r).halted && Of(w, r).back.Get(!r).Some?
    ensures Of(w, r).HalfOf(!r).CanRollBack() <==> DeliversFrom(x, With(w, r, RolledBack(x, Of(w, r), !r)), r)
  {
    if Of(w, r).HalfOf(!r).CanRollBack() {
      UnusedRollBackDelivers(x, w, r);
    } else {
      UsedRollBackReplays(x, w, r);
    }
  }
}
