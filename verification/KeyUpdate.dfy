/** When rolling a key update back is safe for the sender: exactly when nothing was sent past the backup. */
module KeyUpdate {
  import opened Bytes
  import opened Aead
  import opened SecuredMessage
  import opened Session
  import opened Channel
  import opened Delivery

  /** The `i`-th operation is proper and leads from `ends[i]` to `ends[i + 1]`; `logs[i]` is what was
      encrypted by anyone until then. */
  ghost predicate Taken(x: Ctx, ends: seq<End>, ops: seq<Op>, logs: seq<set<Query>>, i: nat)
    requires x.Valid() && |ends| == |ops| + 1 && |logs| == |ops|
  {
    && i < |ops| && ends[i].s.Valid() && ends[i].Proper(ops[i])
    && ends[i + 1] == ends[i].Apply(x, ops[i], logs[i])
  }

  /** A continuation of `a` by proper operations of its own. */
  ghost predicate Continues(x: Ctx, a: End, ends: seq<End>, ops: seq<Op>, logs: seq<set<Query>>) {
    && x.Valid() && |ends| == |ops| + 1 && |logs| == |ops| && ends[0] == a
    && forall i: nat {:trigger Taken(x, ends, ops, logs, i)} :: i < |ops| ==> Taken(x, ends, ops, logs, i)
  }

  /** Two encryptions with one key and one nonce. */
  ghost predicate Reuses(a: End) {
    exists i, j :: 0 <= i < j < |a.sent| && a.sent[i].query.key == a.sent[j].query.key && a.sent[i].query.iv == a.sent[j].query.iv
  }

  lemma {:induction false} ContinuationKeepsInv(x: Ctx, a: End, ends: seq<End>, ops: seq<Op>, logs: seq<set<Query>>, i: nat)
    requires Continues(x, a, ends, ops, logs) && a.Inv(x) && i <= |ops|
    ensures ends[i].Inv(x)
    decreases i
  {
    if i > 0 {
      ContinuationKeepsInv(x, a, ends, ops, logs, i - 1);
      assert Taken(x, ends, ops, logs, i - 1);
      ApplyKeepsInv(x, ends[i - 1], ops[i - 1], logs[i - 1]);
    }
  }

  /** Proper operations never reuse a nonce. */
  lemma ProperNeverReuses(x: Ctx, a: End, ends: seq<End>, ops: seq<Op>, logs: seq<set<Query>>)
    requires Continues(x, a, ends, ops, logs) && x.KeysDistinct() && a.Inv(x)
    ensures !Reuses(ends[|ops|])
  {
    ContinuationKeepsInv(x, a, ends, ops, logs, |ops|);
    var last := ends[|ops|];
    var other := End(!last.role, x.base, Pair(At(0, 0), At(0, 0)), Pair(None, None), Pair([], []), [], [], false);
    FreshInv(x, other);
    InvMeansFresh(x, last, other);
  }

  /** One more operation at the end. */
  lemma Append(x: Ctx, a: End, ends: seq<End>, ops: seq<Op>, logs: seq<set<Query>>, op: Op, next: End)
    requires Continues(x, a, ends, ops, logs) && ends[|ops|].s.Valid() && ends[|ops|].Proper(op)
    requires next == ends[|ops|].Apply(x, op, {})
    ensures Continues(x, a, ends + [next], ops + [op], logs + [{}])
  {
    forall i: nat | i < |ops| + 1
      ensures Taken(x, ends + [next], ops + [op], logs + [{}], i)
    {
      if i < |ops| {
        assert Taken(x, ends, ops, logs, i);
      }
    }
  }

  // Back to the place of a message after a rollback

  /** The endpoint after rolling direction `r` back. */
  function RolledBack(x: Ctx, a: End, r: bool): End
    requires x.Valid() && a.s.Valid()
  {
    a.Apply(x, Activate(r, !r, false), {})
  }

  lemma RolledBackValid(x: Ctx, a: End, r: bool)
    requires x.Valid() && a.s.Valid()
    ensures RolledBack(x, a, r).s.Valid()
  {
    StepsKeepValid(a.s, x.c, {}, x.k, [], 0, r, !r, false);
  }

  /** Established again, with the next keys of direction `r` created again if `recreate`. */
  function Resumed(x: Ctx, a: End, r: bool, recreate: bool): (c: End)
    requires x.Valid() && a.s.Valid()
  {
    RolledBackValid(x, a, r);
    var b := RolledBack(x, a, r).Apply(x, SetState(Established), {});
    if recreate then b.Apply(x, Create(r, !r), {}) else b
  }

  /** A direction that is about to use the keys of place `u`, at or before its counter. */
  ghost predicate HalfReady(x: Ctx, h: Half, r: bool, u: Use) {
    && u.phase.Data? && h.at.depth == u.phase.depth
    && x.Material(r, u.phase) == Some((h.lane.param.key, h.lane.param.salt))
    && h.lane.param.seqNum <= u.n
  }

  ghost predicate ReadyFor(x: Ctx, c: End, r: bool, u: Use) {
    c.s.Valid() && c.s.state.Established? && !c.halted && HalfReady(x, c.HalfOf(r), r, u)
  }

  /** Whether getting back to `u` takes a creation. */
  predicate NeedsCreate(a: End, r: bool, u: Use) {
    u.phase.Data? && a.back.Get(r).Some? && u.phase.depth != a.back.Get(r).value.depth
  }

  lemma HalfResumed(x: Ctx, h: Half, r: bool, u: Use)
    requires h.Inv(x, r) && h.back.Some? && u in h.uses && !h.PassedInBackup(u)
    ensures u.phase.Data? && u.phase.depth == h.back.value.depth ==> HalfReady(x, h.RollBack(), r, u)
    ensures u.phase.Data? && u.phase.depth != h.back.value.depth ==> HalfReady(x, h.RollBack().Create(x.k), r, u)
    ensures u.phase.Data?
  {
    var i :| 0 <= i < |h.uses| && h.uses[i] == u;
    if u.phase.depth != h.back.value.depth {
      assert u.phase.depth == h.at.depth == h.back.value.secret + 1;
      assert x.Secret(r, h.at.depth) == x.k.update(h.backup.secret);
    }
  }

  /** A rollback past the use `u` makes its keys and counter come again. */
  lemma ResumedReady(x: Ctx, a: End, r: bool, u: Use)
    requires x.Valid() && a.Inv(x) && !a.halted && a.back.Get(r).Some?
    requires u in a.uses.Get(r) && !a.HalfOf(r).PassedInBackup(u)
    ensures ReadyFor(x, Resumed(x, a, r, NeedsCreate(a, r, u)), r, u)
  {
    HalfResumed(x, a.HalfOf(r), r, u);
    ResumedShape(x, a, r, NeedsCreate(a, r, u));
  }

  lemma ResumedShape(x: Ctx, a: End, r: bool, recreate: bool)
    requires x.Valid() && a.s.Valid() && a.back.Get(r).Some?
    ensures var c, h := Resumed(x, a, r, recreate), a.HalfOf(r).RollBack();
            && c.s.Valid() && c.s.state.Established? && c.halted == a.halted && c.role == a.role && c.s.framing == a.s.framing
            && c.sent == a.sent && c.accepted == a.accepted && c.uses == a.uses
            && c.HalfOf(r) == if recreate then h.Create(x.k) else h
  {
    ActivateShape(x, a, r, !r, false, {});
    RolledBackValid(x, a, r);
    var b := RolledBack(x, a, r).Apply(x, SetState(Established), {});
    CreateShape(x, b, r, !r, {});
    StepsKeepValid(b.s, x.c, {}, x.k, [], 0, r, !r, false);
  }

  lemma ResumedContinues(x: Ctx, a: End, r: bool, recreate: bool) returns (ends: seq<End>, ops: seq<Op>, logs: seq<set<Query>>)
    requires x.Valid() && a.s.Valid() && !a.halted
    ensures Continues(x, RolledBack(x, a, r), ends, ops, logs) && ends[|ops|] == Resumed(x, a, r, recreate)
    ensures forall k: nat :: k < |ops| ==> ops[k].SetState? || ops[k].Create?
  {
    var b := RolledBack(x, a, r);
    RolledBackValid(x, a, r);
    ends, ops, logs := [b], [], [];
    assert Continues(x, b, ends, ops, logs);
    var c := b.Apply(x, SetState(Established), {});
    Append(x, b, ends, ops, logs, SetState(Established), c);
    ends, ops, logs := ends + [c], ops + [SetState(Established)], logs + [{}];
    if recreate {
      var d := c.Apply(x, Create(r, !r), {});
      Append(x, b, ends, ops, logs, Create(r, !r), d);
      ends, ops, logs := ends + [d], ops + [Create(r, !r)], logs + [{}];
    }
  }

  /** After a rollback past the use `u`, there is a way back to its keys and counter. */
  lemma Resume(x: Ctx, a: End, r: bool, u: Use) returns (ends: seq<End>, ops: seq<Op>, logs: seq<set<Query>>)
    requires x.Valid() && a.Inv(x) && !a.halted && a.back.Get(r).Some?
    requires u in a.uses.Get(r) && !a.HalfOf(r).PassedInBackup(u)
    ensures Continues(x, RolledBack(x, a, r), ends, ops, logs)
    ensures forall k: nat :: k < |ops| ==> ops[k].SetState? || ops[k].Create?
    ensures ReadyFor(x, ends[|ops|], r, u) && ends[|ops|].role == a.role && ends[|ops|].s.framing == a.s.framing
    ensures ends[|ops|].sent == a.sent && ends[|ops|].accepted == a.accepted && ends[|ops|].uses == a.uses
  {
    var recreate := NeedsCreate(a, r, u);
    ResumedReady(x, a, r, u);
    ResumedShape(x, a, r, recreate);
    ends, ops, logs := ResumedContinues(x, a, r, recreate);
  }

  // Sending up to that place

  const EMPTY: Op := Encode([], 64)

  /** A message of no bytes, `m` counters from now. */
  function EmptyQuery(a: End, m: nat): Query
    requires a.s.Valid() && a.s.Param(a.role).seqNum + m <= U64_MAX
  {
    var p := a.s.Param(a.role);
    QueryFor(a.s.framing, p.(seqNum := p.seqNum + m), [])
  }

  lemma SendOneEmpty(x: Ctx, a: End)
    requires x.Valid() && x.c.Total() && a.s.Valid() && a.s.state.Established? && a.s.CanTick(a.role) && !a.halted
    ensures var b := a.Apply(x, EMPTY, {});
            && b.s == a.s.Tick(a.role) && b.s.Valid() && b.role == a.role && !b.halted
            && b.sent == a.sent + [Message(EmptyQuery(a, 0), [])]
  {
    EncodeSucceeds(a.s.framing, x.c, a.s.Param(a.role), [], 64);
  }

  /** `b` is `a` after `m` empty messages. */
  ghost predicate AfterEmpties(a: End, m: nat, b: End)
    requires a.s.Valid() && a.s.Param(a.role).seqNum + m <= U64_MAX
  {
    && b.s.Valid() && b.s.state.Established? && b.role == a.role && b.s.framing == a.s.framing && !b.halted
    && b.s.Param(b.role) == a.s.Param(a.role).(seqNum := a.s.Param(a.role).seqNum + m)
    && |b.sent| == |a.sent| + m && a.sent <= b.sent
    && (m > 0 ==> b.sent[|a.sent| + m - 1].query == EmptyQuery(a, m - 1))
  }

  lemma OneMoreEmpty(x: Ctx, a: End, m: nat, b: End)
    requires x.Valid() && x.c.Total() && a.s.Valid() && a.s.Param(a.role).seqNum + m < U64_MAX && AfterEmpties(a, m, b)
    ensures AfterEmpties(a, m + 1, b.Apply(x, EMPTY, {}))
  {
    SendOneEmpty(x, b);
  }

  /** Sending `m` empty messages takes the counter through the next `m` values. */
  lemma {:induction false} SendEmpties(x: Ctx, a: End, m: nat, start: End, ends: seq<End>, ops: seq<Op>, logs: seq<set<Query>>)
    returns (ends': seq<End>, ops': seq<Op>, logs': seq<set<Query>>)
    requires Continues(x, start, ends, ops, logs) && ends[|ops|] == a && x.c.Total()
    requires a.s.Valid() && a.s.state.Established? && !a.halted && a.s.Param(a.role).seqNum + m <= U64_MAX
    ensures Continues(x, start, ends', ops', logs') && AfterEmpties(a, m, ends'[|ops'|])
    decreases m
  {
    if m == 0 {
      ends', ops', logs' := ends, ops, logs;
    } else {
      ends', ops', logs' := SendEmpties(x, a, m - 1, start, ends, ops, logs);
      var last := ends'[|ops'|];
      OneMoreEmpty(x, a, m - 1, last);
      Append(x, start, ends', ops', logs', EMPTY, last.Apply(x, EMPTY, {}));
      ends', ops', logs' := ends' + [last.Apply(x, EMPTY, {})], ops' + [EMPTY], logs' + [{}];
    }
  }

  /** The empty message at the `i`-th message's counter has its key and nonce. */
  lemma RepeatsQuery(x: Ctx, a: End, c: End, i: nat)
    requires i < |a.sent| && i < |a.uses.Get(a.role)| && a.SentAt(x, i) && c.role == a.role
    requires ReadyFor(x, c, a.role, a.uses.Get(a.role)[i])
    ensures var q := EmptyQuery(c, a.uses.Get(a.role)[i].n - c.s.Param(c.role).seqNum);
            q.key == a.sent[i].query.key && q.iv == a.sent[i].query.iv
  {
  }

  /** From a state that is ready for the place of the `i`-th message, sending repeats its nonce. */
  lemma ReuseFrom(x: Ctx, a: End, i: nat, start: End, ends: seq<End>, ops: seq<Op>, logs: seq<set<Query>>)
    requires Continues(x, start, ends, ops, logs) && x.c.Total() && i < |a.sent| && i < |a.uses.Get(a.role)| && a.SentAt(x, i)
    requires ends[|ops|].role == a.role && ends[|ops|].sent == a.sent
    requires ReadyFor(x, ends[|ops|], a.role, a.uses.Get(a.role)[i])
    ensures !SafeFrom(x, start)
  {
    var c := ends[|ops|];
    var m := a.uses.Get(a.role)[i].n - c.s.Param(c.role).seqNum;
    RepeatsQuery(x, a, c, i);
    var ends', ops', logs' := SendEmpties(x, c, m + 1, start, ends, ops, logs);
    SameQuery(ends'[|ops'|], i, |a.sent| + m);
    Unsafe(x, start, ends', ops', logs');
  }

  /** A rollback past a sent message: getting back to its place and sending repeats its nonce. */
  lemma UsedRollBackReuses(x: Ctx, a: End)
    requires x.Valid() && x.c.Total() && a.Inv(x) && !a.halted && a.back.Get(a.role).Some?
    requires !a.HalfOf(a.role).CanRollBack()
    ensures !SafeFrom(x, RolledBack(x, a, a.role))
  {
    var h := a.HalfOf(a.role);
    var i :| 0 <= i < |h.uses| && !h.PassedInBackup(h.uses[i]);
    assert a.SentAt(x, i);
    var ends, ops, logs := Resume(x, a, a.role, h.uses[i]);
    ReuseFrom(x, a, i, RolledBack(x, a, a.role), ends, ops, logs);
  }

  /** Every proper continuation is free of nonce reuse. */
  ghost predicate SafeFrom(x: Ctx, a: End) {
    forall ends, ops, logs {:trigger Continues(x, a, ends, ops, logs)} ::
      Continues(x, a, ends, ops, logs) ==> !Reuses(ends[|ops|])
  }

  lemma Unsafe(x: Ctx, a: End, ends: seq<End>, ops: seq<Op>, logs: seq<set<Query>>)
    requires Continues(x, a, ends, ops, logs) && Reuses(ends[|ops|])
    ensures !SafeFrom(x, a)
  {
  }

  lemma SameQuery(a: End, i: nat, j: nat)
    requires i < j < |a.sent| && a.sent[i].query.key == a.sent[j].query.key && a.sent[i].query.iv == a.sent[j].query.iv
    ensures Reuses(a)
  {
  }

  /** Rolling back to a backup that holds keys of the session, after a creation, after a creation that
      failed, or after an earlier rollback: every proper continuation is free of nonce reuse if and only
      if nothing was sent past the backup. */
  lemma RollBackSafeIff(x: Ctx, a: End)
    requires x.Valid() && x.KeysDistinct() && x.c.Total() && a.Inv(x) && !a.halted && a.back.Get(a.role).Some?
    ensures a.HalfOf(a.role).CanRollBack() <==> SafeFrom(x, RolledBack(x, a, a.role))
  {
    if a.HalfOf(a.role).CanRollBack() {
      ApplyKeepsInv(x, a, Activate(a.role, !a.role, false), {});
      forall ends, ops, logs | Continues(x, RolledBack(x, a, a.role), ends, ops, logs)
        ensures !Reuses(ends[|ops|])
      {
        ProperNeverReuses(x, RolledBack(x, a, a.role), ends, ops, logs);
      }
    } else {
      UsedRollBackReuses(x, a);
    }
  }
}
