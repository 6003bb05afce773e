/** Setting a session up with a half id of the caller's choosing: exactly which half ids can never lead to
    two live sessions with one id. */
module StaleHalfId {
  import opened Bytes
  import opened SessionTable

  /** Whether the allocator of a table of `n` slots ever hands out this half id. */
  predicate Allocatable(n: nat, own: nat) {
    INITIAL_SESSION_ID - n < own <= INITIAL_SESSION_ID
  }

  /** Live ids stay pairwise distinct over every continuation. */
  ghost predicate DistinctFrom(isRequester: bool, ids: seq<nat>) {
    forall tables, ops {:trigger Runs(isRequester, ids, tables, ops)} ::
      Runs(isRequester, ids, tables, ops) ==> Distinct(tables[|ops|])
  }

  // A half id of the slot itself, or one that is never handed out

  /** Every live slot carries its own half id, but for at most one whose half id is never handed out. */
  predicate Spared(ids: seq<nat>, isRequester: bool) {
    && Agree(ids, isRequester)
    && (forall k :: 0 <= k < |ids| ==>
          || ids[k] == INVALID_SESSION_ID || OwnHalf(isRequester, ids[k]) == INITIAL_SESSION_ID - k
          || !Allocatable(|ids|, OwnHalf(isRequester, ids[k])))
    && forall k, l :: 0 <= k < l < |ids| && ids[k] != INVALID_SESSION_ID && ids[l] != INVALID_SESSION_ID ==>
         Allocatable(|ids|, OwnHalf(isRequester, ids[k])) || Allocatable(|ids|, OwnHalf(isRequester, ids[l]))
  }

  lemma SparedDistinct(ids: seq<nat>, isRequester: bool)
    requires Spared(ids, isRequester)
    ensures Distinct(ids)
  {
  }

  /** Opening fills the first free slot with its own half id. */
  lemma OpenFills(ids: seq<nat>, isRequester: bool, peer: nat, f: nat)
    requires Agree(ids, isRequester) && SlotOf(ids, INVALID_SESSION_ID) == Some(f) && peer < 0x1_0000
    ensures f < |ids| && Step(ids, isRequester, Open(peer)) == Ok(ids[f := Compose(isRequester, INITIAL_SESSION_ID - f, peer)])
    ensures Agree(ids[f := Compose(isRequester, INITIAL_SESSION_ID - f, peer)], isRequester)
  {
    ScansAgree(ids, isRequester);
    OwnHalfOfCompose(isRequester, INITIAL_SESSION_ID - f, peer);
  }

  lemma StepKeepsSpared(ids: seq<nat>, isRequester: bool, op: Op)
    requires Spared(ids, isRequester) && (op.Open? ==> op.peer < 0x1_0000)
    ensures Spared(Performed(ids, isRequester, op), isRequester)
  {
    match op
    case Open(peer) => OpenKeepsSpared(ids, isRequester, peer);
    case Close(id) =>
      if SlotOf(ids, id).Some? {
        FreeKeepsSpared(ids, isRequester, SlotOf(ids, id).value);
      }
    case ResetAll => EmptySpared(|ids|, isRequester);
  }

  lemma OpenKeepsSpared(ids: seq<nat>, isRequester: bool, peer: nat)
    requires Spared(ids, isRequester) && peer < 0x1_0000
    ensures Spared(Performed(ids, isRequester, Open(peer)), isRequester)
  {
    ScansAgree(ids, isRequester);
    var slot := SlotOf(ids, INVALID_SESSION_ID);
    if slot.Some? {
      OpenFills(ids, isRequester, peer, slot.value);
      OwnHalfOfCompose(isRequester, INITIAL_SESSION_ID - slot.value, peer);
      FillKeepsSpared(ids, isRequester, slot.value, Compose(isRequester, INITIAL_SESSION_ID - slot.value, peer));
    }
  }

  lemma EmptySpared(n: nat, isRequester: bool)
    requires n <= INITIAL_SESSION_ID
    ensures Spared(seq(n, _ => INVALID_SESSION_ID), isRequester)
  {
    ZeroIsFree(isRequester);
  }

  lemma ZeroIsFree(isRequester: bool)
    ensures OwnHalf(isRequester, INVALID_SESSION_ID) == 0
  {
  }

  lemma FillKeepsSpared(ids: seq<nat>, isRequester: bool, f: nat, id: nat)
    requires Spared(ids, isRequester) && f < |ids| && ids[f] == INVALID_SESSION_ID && Agree(ids[f := id], isRequester)
    requires OwnHalf(isRequester, id) == INITIAL_SESSION_ID - f
    ensures Spared(ids[f := id], isRequester)
  {
    var next := ids[f := id];
    assert Allocatable(|ids|, OwnHalf(isRequester, next[f]));
    forall k, l | 0 <= k < l < |next| && next[k] != INVALID_SESSION_ID && next[l] != INVALID_SESSION_ID
      ensures Allocatable(|ids|, OwnHalf(isRequester, next[k])) || Allocatable(|ids|, OwnHalf(isRequester, next[l]))
    {
      assert k != f ==> next[k] == ids[k];
      assert l != f ==> next[l] == ids[l];
    }
  }

  lemma FreeKeepsSpared(ids: seq<nat>, isRequester: bool, i: nat)
    requires Spared(ids, isRequester) && i < |ids|
    ensures Spared(ids[i := INVALID_SESSION_ID], isRequester)
  {
    var next := ids[i := INVALID_SESSION_ID];
    ZeroIsFree(isRequester);
    forall k, l | 0 <= k < l < |next| && next[k] != INVALID_SESSION_ID && next[l] != INVALID_SESSION_ID
      ensures Allocatable(|ids|, OwnHalf(isRequester, next[k])) || Allocatable(|ids|, OwnHalf(isRequester, next[l]))
    {
      assert next[k] == ids[k] && next[l] == ids[l];
    }
  }

  lemma {:induction false} RunKeepsSpared(isRequester: bool, ids: seq<nat>, tables: seq<seq<nat>>, ops: seq<Op>, i: nat)
    requires Spared(ids, isRequester) && Runs(isRequester, ids, tables, ops) && i <= |ops|
    ensures Spared(tables[i], isRequester)
    decreases i
  {
    if i > 0 {
      RunKeepsSpared(isRequester, ids, tables, ops, i - 1);
      assert RunStep(isRequester, tables, ops, i - 1);
      StepKeepsSpared(tables[i - 1], isRequester, ops[i - 1]);
    }
  }

  lemma SparedStaysDistinct(isRequester: bool, ids: seq<nat>)
    requires Spared(ids, isRequester)
    ensures DistinctFrom(isRequester, ids)
  {
    forall tables, ops | Runs(isRequester, ids, tables, ops)
      ensures Distinct(tables[|ops|])
    {
      RunKeepsSpared(isRequester, ids, tables, ops, |ops|);
      SparedDistinct(tables[|ops|], isRequester);
    }
  }

  // The half id of another slot

  lemma AppendOp(isRequester: bool, ids: seq<nat>, tables: seq<seq<nat>>, ops: seq<Op>, op: Op)
    requires Runs(isRequester, ids, tables, ops) && (op.Open? ==> op.peer < 0x1_0000)
    ensures Runs(isRequester, ids, tables + [Performed(tables[|ops|], isRequester, op)], ops + [op])
  {
    var tables', ops' := tables + [Performed(tables[|ops|], isRequester, op)], ops + [op];
    forall i: nat | i < |ops'|
      ensures RunStep(isRequester, tables', ops', i)
    {
      if i < |ops| {
        assert RunStep(isRequester, tables, ops, i);
      }
    }
  }

  /** Opening sessions with one peer half until slot `j` is taken leaves the live ones alone. */
  lemma {:induction false} FillTo(isRequester: bool, ids: seq<nat>, tables: seq<seq<nat>>, ops: seq<Op>, j: nat, peer: nat)
    returns (tables': seq<seq<nat>>, ops': seq<Op>)
    requires Runs(isRequester, ids, tables, ops) && Agree(tables[|ops|], isRequester) && peer < 0x1_0000
    requires j < |tables[|ops|]| && tables[|ops|][j] == INVALID_SESSION_ID
    ensures Runs(isRequester, ids, tables', ops') && |tables'[|ops'|]| == |tables[|ops|]|
    ensures tables'[|ops'|][j] == Compose(isRequester, INITIAL_SESSION_ID - j, peer)
    ensures forall k :: 0 <= k < |tables[|ops|]| && tables[|ops|][k] != INVALID_SESSION_ID ==> tables'[|ops'|][k] == tables[|ops|][k]
    decreases j - SlotOf(tables[|ops|], INVALID_SESSION_ID).value
  {
    var now := tables[|ops|];
    var f := SlotOf(now, INVALID_SESSION_ID).value;
    OpenFills(now, isRequester, peer, f);
    AppendOp(isRequester, ids, tables, ops, Open(peer));
    var next := now[f := Compose(isRequester, INITIAL_SESSION_ID - f, peer)];
    tables', ops' := tables + [next], ops + [Open(peer)];
    if f < j {
      LaterFree(now, next, f, j);
      tables', ops' := FillTo(isRequester, ids, tables', ops', j, peer);
    }
  }

  lemma LaterFree(now: seq<nat>, next: seq<nat>, f: nat, j: nat)
    requires SlotOf(now, INVALID_SESSION_ID) == Some(f) && f < j < |now| == |next| && next[j] == INVALID_SESSION_ID
    requires next[f] != INVALID_SESSION_ID && forall k :: 0 <= k < f ==> next[k] == now[k]
    ensures SlotOf(next, INVALID_SESSION_ID).Some? && f < SlotOf(next, INVALID_SESSION_ID).value <= j
  {
  }

  /** With the half id of slot `j` in another slot, closing `j` and opening sessions up to it gives two
      live sessions one id. */
  lemma OtherSlotDuplicates(isRequester: bool, ids: seq<nat>, i: nat, j: nat, peer: nat)
    requires Agree(ids, isRequester) && i < |ids| && j < |ids| && i != j && peer < 0x1_0000
    requires ids[i] == Compose(isRequester, INITIAL_SESSION_ID - j, peer)
    requires forall k :: 0 <= k < |ids| && k != j && ids[k] == ids[j] ==> ids[j] == INVALID_SESSION_ID
    ensures !DistinctFrom(isRequester, ids)
  {
    OwnHalfOfCompose(isRequester, INITIAL_SESSION_ID - j, peer);
    ZeroIsFree(isRequester);
    var now := ids[j := INVALID_SESSION_ID];
    assert Performed(ids, isRequester, Close(ids[j])) == now by {
      if ids[j] != INVALID_SESSION_ID {
        FirstIs(ids, (x: nat) => x == ids[j], j);
      } else {
        assert ids == now;
      }
    }
    AppendOp(isRequester, ids, [ids], [], Close(ids[j]));
    assert Runs(isRequester, ids, [ids, now], [Close(ids[j])]) by {
      assert [ids] + [now] == [ids, now] && [] + [Close(ids[j])] == [Close(ids[j])];
    }
    var tables, ops := FillTo(isRequester, ids, [ids, now], [Close(ids[j])], j, peer);
    assert tables[|ops|][i] == tables[|ops|][j] != INVALID_SESSION_ID;
  }

  /** After setting up any half id in the free slot, live ids stay distinct over every continuation if and
      only if it is the half id of that slot or one the allocator never hands out. */
  lemma SetupSafeIff(isRequester: bool, ids: seq<nat>, own: nat, peer: nat)
    requires Inv(ids, isRequester) && 0 < own < 0x1_0000 && peer < 0x1_0000 && SlotOf(ids, INVALID_SESSION_ID).Some?
    ensures var i := SlotOf(ids, INVALID_SESSION_ID).value;
            DistinctFrom(isRequester, ids[i := Compose(isRequester, own, peer)]) <==>
            own == INITIAL_SESSION_ID - i || !Allocatable(|ids|, own)
  {
    var i := SlotOf(ids, INVALID_SESSION_ID).value;
    var next := ids[i := Compose(isRequester, own, peer)];
    InvAgrees(ids, isRequester);
    OwnHalfOfCompose(isRequester, own, peer);
    if own == INITIAL_SESSION_ID - i || !Allocatable(|ids|, own) {
      SetupSpared(isRequester, ids, i, Compose(isRequester, own, peer));
      SparedStaysDistinct(isRequester, next);
    } else {
      var j := INITIAL_SESSION_ID - own;
      if next[j] == next[i] {
        assert Runs(isRequester, next, [next], []);
        assert !Distinct([next][0]);
      } else {
        OtherSlotDuplicates(isRequester, next, i, j, peer);
      }
    }
  }

  lemma SetupSpared(isRequester: bool, ids: seq<nat>, i: nat, id: nat)
    requires Inv(ids, isRequester) && i < |ids| && ids[i] == INVALID_SESSION_ID && id != INVALID_SESSION_ID
    requires OwnHalf(isRequester, id) != 0
    requires OwnHalf(isRequester, id) == INITIAL_SESSION_ID - i || !Allocatable(|ids|, OwnHalf(isRequester, id))
    ensures Spared(ids[i := id], isRequester)
  {
    InvAgrees(ids, isRequester);
    var next := ids[i := id];
    assert forall k :: 0 <= k < |ids| && k != i ==> next[k] == ids[k];
  }
}
