/** Cutting the range `0..n` into consecutive pieces, where whether a piece is accepted may depend on
    whether it is the last one. */
module Cuts {
  import opened Bytes

  /** The size of the piece at an offset, if it is accepted as the last piece or as another one. */
  type Piece = (nat, bool) -> Option<nat>

  /** Pieces are not empty, stay inside the range, and their size does not depend on their being last. */
  ghost predicate Sane(n: nat, f: Piece) {
    forall at: nat, last: bool {:trigger f(at, last)} :: at <= n && f(at, last).Some? ==>
      && 0 < f(at, last).value <= n - at
      && (f(at, !last).Some? ==> f(at, !last) == f(at, last))
  }

  /** The `i`-th piece, accepted as last or not. */
  ghost predicate PieceAt(f: Piece, bounds: seq<nat>, i: nat, last: bool) {
    && i + 1 < |bounds| && bounds[i] < bounds[i + 1]
    && f(bounds[i], last) == Some(bounds[i + 1] - bounds[i])
  }

  ghost predicate Cut(n: nat, f: Piece, bounds: seq<nat>) {
    && |bounds| >= 1 && bounds[0] == 0 && bounds[|bounds| - 1] == n
    && (forall i :: 0 <= i < |bounds| ==> bounds[i] <= n)
    && forall i: nat {:trigger CutAt(f, bounds, i)} :: i + 1 < |bounds| ==> CutAt(f, bounds, i)
  }

  ghost predicate CutAt(f: Piece, bounds: seq<nat>, i: nat) {
    PieceAt(f, bounds, i, i == |bounds| - 2)
  }

  /** The walker's choice: a piece that reaches the end is taken for the last. */
  function Next(n: nat, f: Piece, at: nat): Option<nat>
    requires at < n
  {
    if f(at, true) == Some(n - at) then f(at, true)
    else if f(at, false) != Some(n - at) then f(at, false)
    else None
  }

  /** The pieces behind the walker. */
  ghost predicate Walked(n: nat, f: Piece, bounds: seq<nat>) {
    && |bounds| >= 1 && bounds[0] == 0
    && (forall i :: 0 <= i < |bounds| ==> bounds[i] <= n)
    && forall i: nat {:trigger WalkedAt(n, f, bounds, i)} :: i + 1 < |bounds| ==> WalkedAt(n, f, bounds, i)
  }

  ghost predicate WalkedAt(n: nat, f: Piece, bounds: seq<nat>, i: nat) {
    i + 1 < |bounds| && PieceAt(f, bounds, i, bounds[i + 1] == n)
  }

  lemma Extend(n: nat, f: Piece, bounds: seq<nat>, at: nat, k: nat)
    requires Sane(n, f) && Walked(n, f, bounds) && at == bounds[|bounds| - 1] < n && Next(n, f, at) == Some(k)
    ensures 0 < k <= n - at && Walked(n, f, bounds + [at + k])
  {
    var more := bounds + [at + k];
    forall i: nat | i + 1 < |more|
      ensures WalkedAt(n, f, more, i)
    {
      if i + 1 < |bounds| {
        assert WalkedAt(n, f, bounds, i);
      }
    }
  }

  lemma Done(n: nat, f: Piece, bounds: seq<nat>)
    requires Walked(n, f, bounds) && bounds[|bounds| - 1] == n
    ensures Cut(n, f, bounds)
  {
    forall i: nat | i + 1 < |bounds|
      ensures CutAt(f, bounds, i)
    {
      assert WalkedAt(n, f, bounds, i);
      if i < |bounds| - 2 {
        assert WalkedAt(n, f, bounds, i + 1);
      }
    }
  }

  /** Every cut begins with what was walked. */
  lemma {:induction false} CutFollowsWalk(n: nat, f: Piece, bounds: seq<nat>, b: seq<nat>, i: nat)
    requires Sane(n, f) && Walked(n, f, bounds) && Cut(n, f, b) && i < |bounds|
    ensures i < |b| && b[i] == bounds[i]
    decreases i
  {
    if i > 0 {
      CutFollowsWalk(n, f, bounds, b, i - 1);
      assert WalkedAt(n, f, bounds, i - 1);
      assert i - 1 < |b| - 1;
      assert CutAt(f, b, i - 1);
    }
  }

  /** When the walker is stuck before the end, there is no cut at all. */
  lemma Stuck(n: nat, f: Piece, bounds: seq<nat>)
    requires Sane(n, f) && Walked(n, f, bounds) && bounds[|bounds| - 1] < n
    requires Next(n, f, bounds[|bounds| - 1]).None?
    ensures forall b :: !Cut(n, f, b)
  {
    forall b
      ensures !Cut(n, f, b)
    {
      if Cut(n, f, b) {
        var i := |bounds| - 1;
        CutFollowsWalk(n, f, bounds, b, i);
        assert CutAt(f, b, i);
        LastEndsThere(n, f, b, i);
      }
    }
  }

  /** A walked piece is the walker's choice. */
  lemma WalkedIsNext(n: nat, f: Piece, bounds: seq<nat>, i: nat)
    requires Sane(n, f) && Walked(n, f, bounds) && i + 1 < |bounds|
    ensures bounds[i] < bounds[i + 1] <= n && Next(n, f, bounds[i]) == Some(bounds[i + 1] - bounds[i])
  {
    assert WalkedAt(n, f, bounds, i);
  }

  /** There is only one way to walk. */
  lemma {:induction false} WalkedAgree(n: nat, f: Piece, a: seq<nat>, b: seq<nat>, i: nat)
    requires Sane(n, f) && Walked(n, f, a) && Walked(n, f, b) && i < |a| && i < |b|
    ensures a[i] == b[i]
    decreases i
  {
    if i > 0 {
      WalkedAgree(n, f, a, b, i - 1);
      WalkedIsNext(n, f, a, i - 1);
      WalkedIsNext(n, f, b, i - 1);
    }
  }

  /** And only one place to get stuck. */
  lemma StuckUnique(n: nat, f: Piece, a: seq<nat>, b: seq<nat>)
    requires Sane(n, f) && Walked(n, f, a) && Walked(n, f, b)
    requires a[|a| - 1] == n || Next(n, f, a[|a| - 1]).None?
    requires b[|b| - 1] < n && Next(n, f, b[|b| - 1]).None?
    ensures a[|a| - 1] == b[|b| - 1]
  {
    if |a| < |b| {
      WalkedAgree(n, f, a, b, |a| - 1);
      WalkedIsNext(n, f, b, |a| - 1);
    } else if |b| < |a| {
      WalkedAgree(n, f, a, b, |b| - 1);
      WalkedIsNext(n, f, a, |b| - 1);
    } else {
      WalkedAgree(n, f, a, b, |a| - 1);
    }
  }

  lemma LastEndsThere(n: nat, f: Piece, b: seq<nat>, i: nat)
    requires Cut(n, f, b) && i < |b| - 1
    ensures b[i + 1] == n <==> i == |b| - 2
  {
    if i < |b| - 2 {
      assert CutAt(f, b, i + 1);
    }
  }

  lemma CutIsWalked(n: nat, f: Piece, b: seq<nat>)
    requires Cut(n, f, b)
    ensures Walked(n, f, b)
  {
    forall i: nat | i + 1 < |b|
      ensures WalkedAt(n, f, b, i)
    {
      assert CutAt(f, b, i);
      LastEndsThere(n, f, b, i);
    }
  }

  lemma CutUnique(n: nat, f: Piece, a: seq<nat>, b: seq<nat>)
    requires Sane(n, f) && Cut(n, f, a) && Cut(n, f, b)
    ensures a == b
  {
    CutIsWalked(n, f, a);
    CutIsWalked(n, f, b);
    CutFollowsWalk(n, f, a, b, |a| - 1);
    CutFollowsWalk(n, f, b, a, |b| - 1);
    forall i | 0 <= i < |a|
      ensures i < |b| && a[i] == b[i]
    {
      CutFollowsWalk(n, f, a, b, i);
    }
  }
}
