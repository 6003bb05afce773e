/** The session array as an allocator: half-session-id assignment, free-slot search, set-up, teardown.
    A session id is the responder's half in the high 16 bits and the requester's in the low 16. */
module SessionTable {
  import opened Bytes

  const INITIAL_SESSION_ID: nat := 0xFFFD
  const INVALID_SESSION_ID: nat := 0

  /** The half of a session id that this side chose. */
  function OwnHalf(isRequester: bool, id: nat): nat {
    if isRequester then id % 0x1_0000 else id / 0x1_0000 % 0x1_0000
  }

  function Compose(isRequester: bool, own: nat, peer: nat): nat {
    if isRequester then peer * 0x1_0000 + own else own * 0x1_0000 + peer
  }

  /** The first slot whose id satisfies a test. */
  function First(ids: seq<nat>, test: nat -> bool): (r: Option<nat>)
    ensures r.Some? ==> r.value < |ids| && test(ids[r.value]) && forall j :: 0 <= j < r.value ==> !test(ids[j])
    ensures r.None? ==> forall j :: 0 <= j < |ids| ==> !test(ids[j])
  {
    if ids == [] then None
    else if test(ids[0]) then Some(0)
    else
      match First(ids[1..], test)
      case None => None
      case Some(i) => Some(i + 1)
  }

  /** `get_next_half_session_id` */
  function NextHalfId(ids: seq<nat>, isRequester: bool): Outcome<nat> {
    match First(ids, (id: nat) => OwnHalf(isRequester, id) == 0)
    case None => Err(SessionNumberExceed)
    case Some(i) => if i % 0x1_0000 > INITIAL_SESSION_ID then Abort else Ok(INITIAL_SESSION_ID - i % 0x1_0000)
  }

  /** `get_session_via_id`; with id 0, `get_next_avaiable_session` */
  function SlotOf(ids: seq<nat>, id: nat): Option<nat> {
    First(ids, (x: nat) => x == id)
  }

  /** A live slot `i` carries `0xFFFD - i` in its own half; a free one carries id 0. */
  predicate Inv(ids: seq<nat>, isRequester: bool) {
    && |ids| <= INITIAL_SESSION_ID
    && forall i :: 0 <= i < |ids| ==>
         ids[i] == INVALID_SESSION_ID || (OwnHalf(isRequester, ids[i]) == INITIAL_SESSION_ID - i && ids[i] < 0x1_0000_0000)
  }

  lemma OwnHalfOfCompose(isRequester: bool, own: nat, peer: nat)
    requires own < 0x1_0000 && peer < 0x1_0000
    ensures OwnHalf(isRequester, Compose(isRequester, own, peer)) == own
    ensures Compose(isRequester, own, peer) < 0x1_0000_0000
    ensures own != 0 ==> Compose(isRequester, own, peer) != 0
  {
  }

  /** An id of two halves: the responder's in the high 16 bits, the requester's in the low ones. */
  predicate IsId(isRequester: bool, own: int, peer: nat, id: nat) {
    if isRequester then id / 0x1_0000 == peer && id % 0x1_0000 == own else id / 0x1_0000 == own && id % 0x1_0000 == peer
  }

  lemma IsIdOfCompose(isRequester: bool, own: nat, peer: nat)
    requires own < 0x1_0000 && peer < 0x1_0000
    ensures IsId(isRequester, own, peer, Compose(isRequester, own, peer))
  {
  }

  /** The free slot `i` and no other is taken, by the session `id`. */
  ghost predicate TakesSlot(before: seq<nat>, after: seq<nat>, i: nat, id: nat) {
    && |after| == |before| && i < |before| && before[i] == 0 && after[i] == id
    && forall j :: 0 <= j < |before| && j != i ==> after[j] == before[j]
  }

  /** The slot `i` of the session `id` and no other is freed. */
  ghost predicate FreesSlot(before: seq<nat>, after: seq<nat>, i: nat, id: nat) {
    TakesSlot(after, before, i, id)
  }

  /** A slot is free exactly when its own half is 0. */
  lemma FreeIffOwnHalfZero(ids: seq<nat>, isRequester: bool, i: nat)
    requires Inv(ids, isRequester) && i < |ids|
    ensures ids[i] == INVALID_SESSION_ID <==> OwnHalf(isRequester, ids[i]) == 0
  {
  }

  /** In every slot, the own half is 0 exactly when the id is. */
  predicate Agree(ids: seq<nat>, isRequester: bool) {
    && |ids| <= INITIAL_SESSION_ID
    && forall i :: 0 <= i < |ids| ==> (ids[i] == INVALID_SESSION_ID <==> OwnHalf(isRequester, ids[i]) == 0)
  }

  lemma InvAgrees(ids: seq<nat>, isRequester: bool)
    requires Inv(ids, isRequester)
    ensures Agree(ids, isRequester)
  {
    forall i: nat | i < |ids|
      ensures ids[i] == INVALID_SESSION_ID <==> OwnHalf(isRequester, ids[i]) == 0
    {
      FreeIffOwnHalfZero(ids, isRequester, i);
    }
  }

  /** The half-id scan and the free-slot scan find the same slot, or both find none. */
  lemma ScansAgree(ids: seq<nat>, isRequester: bool)
    requires Agree(ids, isRequester)
    ensures match SlotOf(ids, INVALID_SESSION_ID)
            case None => NextHalfId(ids, isRequester) == Err(SessionNumberExceed)
            case Some(i) => i < |ids| && NextHalfId(ids, isRequester) == Ok(INITIAL_SESSION_ID - i)
  {
  }

  lemma LiveIdsDistinct(ids: seq<nat>, isRequester: bool, i: nat, j: nat)
    requires Inv(ids, isRequester) && i < j < |ids| && ids[i] == ids[j]
    ensures ids[i] == INVALID_SESSION_ID
  {
  }

  datatype Op = Open(peer: nat) | Close(id: nat) | ResetAll

  /** Opening: ask for a half id, compose the id, take the free slot, set it up. Closing: find the
      session, tear it down. A panic of `setup` or `teardown` is an abort. */
  function Step(ids: seq<nat>, isRequester: bool, op: Op): Outcome<seq<nat>> {
    match op
    case Open(peer) =>
      var own :- NextHalfId(ids, isRequester);
      (match SlotOf(ids, INVALID_SESSION_ID)
       case None => Err(SessionNumberExceed)
       case Some(i) => Setup(ids, i, Compose(isRequester, own, peer)))
    case Close(id) =>
      (match SlotOf(ids, id)
       case None => Err(InvalidParameter)
       case Some(i) => Teardown(ids, i, id))
    case ResetAll => Ok(seq(|ids|, _ => INVALID_SESSION_ID))
  }

  function Setup(ids: seq<nat>, i: nat, id: nat): Outcome<seq<nat>>
    requires i < |ids|
  {
    if ids[i] == INVALID_SESSION_ID then Ok(ids[i := id]) else Abort
  }

  function Teardown(ids: seq<nat>, i: nat, id: nat): Outcome<seq<nat>>
    requires i < |ids|
  {
    if ids[i] == id then Ok(ids[i := INVALID_SESSION_ID]) else Abort
  }

  lemma StepKeepsInv(ids: seq<nat>, isRequester: bool, op: Op)
    requires Inv(ids, isRequester) && (op.Open? ==> op.peer < 0x1_0000)
    ensures !Step(ids, isRequester, op).Abort?
    ensures Step(ids, isRequester, op).Ok? ==> Inv(Step(ids, isRequester, op).value, isRequester)
    ensures op.Open? ==> (Step(ids, isRequester, op).Err? <==> INVALID_SESSION_ID !in ids)
  {
    if op.Open? {
      InvAgrees(ids, isRequester);
      ScansAgree(ids, isRequester);
      var slot := SlotOf(ids, INVALID_SESSION_ID);
      if slot.Some? {
        OwnHalfOfCompose(isRequester, INITIAL_SESSION_ID - slot.value, op.peer);
      }
    }
  }

  /** A run from the table `ids`; a refused operation changes nothing. */
  ghost predicate Runs(isRequester: bool, ids: seq<nat>, tables: seq<seq<nat>>, ops: seq<Op>) {
    && |tables| == |ops| + 1 && tables[0] == ids
    && forall i: nat {:trigger RunStep(isRequester, tables, ops, i)} :: i < |ops| ==> RunStep(isRequester, tables, ops, i)
  }

  /** A run from an empty table of `n` slots. */
  ghost predicate IsRun(n: nat, isRequester: bool, tables: seq<seq<nat>>, ops: seq<Op>) {
    n <= INITIAL_SESSION_ID && Runs(isRequester, seq(n, _ => INVALID_SESSION_ID), tables, ops)
  }

  ghost predicate RunStep(isRequester: bool, tables: seq<seq<nat>>, ops: seq<Op>, i: nat)
    requires i < |ops| && |tables| == |ops| + 1
  {
    && (ops[i].Open? ==> ops[i].peer < 0x1_0000)
    && tables[i + 1] == Performed(tables[i], isRequester, ops[i])
  }

  function Performed(ids: seq<nat>, isRequester: bool, op: Op): seq<nat> {
    var next := Step(ids, isRequester, op);
    if next.Ok? then next.value else ids
  }

  lemma {:induction false} RunKeepsInv(n: nat, isRequester: bool, tables: seq<seq<nat>>, ops: seq<Op>, i: nat)
    requires IsRun(n, isRequester, tables, ops) && i <= |ops|
    ensures Inv(tables[i], isRequester)
    decreases i
  {
    if i > 0 {
      RunKeepsInv(n, isRequester, tables, ops, i - 1);
      assert RunStep(isRequester, tables, ops, i - 1);
      StepKeepsInv(tables[i - 1], isRequester, ops[i - 1]);
    }
  }

  /** Over every run: the invariant holds, no operation panics, live ids are pairwise distinct, and a
      live id is found in the slot that its own half names. */
  lemma AllocatorRun(n: nat, isRequester: bool, tables: seq<seq<nat>>, ops: seq<Op>, i: nat)
    requires IsRun(n, isRequester, tables, ops) && i <= |ops|
    ensures Inv(tables[i], isRequester)
    ensures i < |ops| ==> !Step(tables[i], isRequester, ops[i]).Abort?
    ensures Distinct(tables[i])
    ensures forall a: nat :: a < |tables[i]| && tables[i][a] != INVALID_SESSION_ID ==> SlotOf(tables[i], tables[i][a]) == Some(a)
    ensures forall a: nat :: a < |tables[i]| && tables[i][a] != 0 ==>
              (if isRequester then tables[i][a] % 0x1_0000 else tables[i][a] / 0x1_0000) == 0xFFFD - a
  {
    RunKeepsInv(n, isRequester, tables, ops, i);
    if i < |ops| {
      assert RunStep(isRequester, tables, ops, i);
      StepKeepsInv(tables[i], isRequester, ops[i]);
    }
    LiveDistinct(tables[i], isRequester);
  }

  /** Live ids are pairwise distinct. */
  predicate Distinct(ids: seq<nat>) {
    forall a, b :: 0 <= a < b < |ids| && ids[a] == ids[b] ==> ids[a] == INVALID_SESSION_ID
  }

  lemma LiveDistinct(ids: seq<nat>, isRequester: bool)
    requires Inv(ids, isRequester)
    ensures Distinct(ids)
    ensures forall a: nat :: a < |ids| && ids[a] != INVALID_SESSION_ID ==> SlotOf(ids, ids[a]) == Some(a)
  {
    forall a: nat, b: nat | a < b < |ids| && ids[a] == ids[b]
      ensures ids[a] == INVALID_SESSION_ID
    {
      LiveIdsDistinct(ids, isRequester, a, b);
    }
  }

  /** A teardown between the half-id scan and the set-up can give two live sessions one id. */
  lemma StaleHalfIdDuplicates(peer: nat)
    requires peer < 0x1_0000
    ensures var first := Compose(true, 0xFFFD, peer);
            && Step([0, 0], true, Open(peer)) == Ok([first, 0])
            && NextHalfId([first, 0], true) == Ok(0xFFFC)
            && Step([first, 0], true, Close(first)) == Ok([0, 0])
            && var stale := Compose(true, 0xFFFC, peer);
               && Setup([0, 0], 0, stale) == Ok([stale, 0])
               && Step([stale, 0], true, Open(peer)) == Ok([stale, stale])
  {
    var first, stale := Compose(true, 0xFFFD, peer), Compose(true, 0xFFFC, peer);
    OwnHalfOfCompose(true, 0xFFFD, peer);
    OwnHalfOfCompose(true, 0xFFFC, peer);
    assert [0, 0][0 := first] == [first, 0] && [0, 0][0 := stale] == [stale, 0];
    assert [first, 0][0 := 0] == [0, 0] && [stale, 0][1 := stale] == [stale, stale];
    assert First([0, 0], (id: nat) => OwnHalf(true, id) == 0) == Some(0);
    assert NextHalfId([stale, 0], true) == Ok(0xFFFC);
  }

  class Table {
    const ids: array<nat>
    const isRequester: bool

    constructor (n: nat, isRequester: bool)
      ensures ids[..] == seq(n, _ => INVALID_SESSION_ID) && this.isRequester == isRequester && fresh(ids)
    {
      ids := new nat[n](_ => INVALID_SESSION_ID);
      this.isRequester := isRequester;
    }

    method GetNextHalfSessionId() returns (r: Outcome<nat>)
      ensures r == NextHalfId(ids[..], isRequester)
    {
      for i := 0 to ids.Length
        invariant forall j :: 0 <= j < i ==> OwnHalf(isRequester, ids[j]) != 0
      {
        if OwnHalf(isRequester, ids[i]) == 0 {
          FirstIs(ids[..], (id: nat) => OwnHalf(isRequester, id) == 0, i);
          if i % 0x1_0000 > INITIAL_SESSION_ID {
            return Abort;
          }
          return Ok(INITIAL_SESSION_ID - i % 0x1_0000);
        }
      }
      r := Err(SessionNumberExceed);
    }

    method GetSessionViaId(id: nat) returns (r: Option<nat>)
      ensures r == SlotOf(ids[..], id)
    {
      for i := 0 to ids.Length
        invariant forall j :: 0 <= j < i ==> ids[j] != id
      {
        if ids[i] == id {
          FirstIs(ids[..], (x: nat) => x == id, i);
          return Some(i);
        }
      }
      r := None;
    }

    method OpenSession(peer: nat) returns (r: Outcome<nat>)
      modifies ids
      ensures var s := Step(old(ids[..]), isRequester, Open(peer));
              if s.Ok? then r.Ok? && ids[..] == s.value && r.value in ids[..] else r == s.PropagateFailure() && ids[..] == old(ids[..])
      ensures r.Ok? ==> exists i: nat :: TakesSlot(old(ids[..]), ids[..], i, r.value)
      ensures Agree(old(ids[..]), isRequester) ==> (r.Ok? <==> 0 in old(ids[..])) && (r.Ok? || r == Err(SessionNumberExceed))
      ensures r.Ok? && Agree(old(ids[..]), isRequester) && peer < 0x1_0000 ==>
                exists i: nat :: TakesSlot(old(ids[..]), ids[..], i, r.value) && IsId(isRequester, 0xFFFD - i, peer, r.value)
    {
      if Agree(ids[..], isRequester) {
        ScansAgree(ids[..], isRequester);
      }
      var own := GetNextHalfSessionId();
      if own.IsFailure() {
        return own;
      }
      var slot := GetSessionViaId(INVALID_SESSION_ID);
      if slot.None? {
        return Err(SessionNumberExceed);
      }
      var id := Compose(isRequester, own.value, peer);
      if ids[slot.value] != INVALID_SESSION_ID {
        return Abort;
      }
      ids[slot.value] := id;
      assert ids[..][slot.value] == id;
      assert TakesSlot(old(ids[..]), ids[..], slot.value, id);
      if Agree(old(ids[..]), isRequester) && peer < 0x1_0000 {
        IsIdOfCompose(isRequester, own.value, peer);
      }
      r := Ok(id);
    }

    method CloseSession(id: nat) returns (r: Outcome<()>)
      modifies ids
      ensures var s := Step(old(ids[..]), isRequester, Close(id));
              if s.Ok? then r == Ok(()) && ids[..] == s.value else r == s.PropagateFailure() && ids[..] == old(ids[..])
      ensures id in old(ids[..]) ==> r == Ok(()) && exists i: nat :: FreesSlot(old(ids[..]), ids[..], i, id)
      ensures id !in old(ids[..]) ==> r == Err(InvalidParameter)
    {
      var slot := GetSessionViaId(id);
      if slot.None? {
        return Err(InvalidParameter);
      }
      if ids[slot.value] != id {
        return Abort;
      }
      ids[slot.value] := INVALID_SESSION_ID;
      assert FreesSlot(old(ids[..]), ids[..], slot.value, id);
      r := Ok(());
    }
  }

  lemma FirstIs(ids: seq<nat>, test: nat -> bool, i: nat)
    requires i < |ids| && test(ids[i]) && forall j :: 0 <= j < i ==> !test(ids[j])
    ensures First(ids, test) == Some(i)
  {
  }
}
