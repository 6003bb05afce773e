/** Running digests behind integer handles: the table of contexts in the hash backend, and the
    `SpdmHashCtx` values that own its entries through clone, finalize and drop. */
module HashCtx {
  import opened Bytes

  datatype Algo = Sha256 | Sha384 | Sha512 | OtherAlgo

  /** A digest context, known by its algorithm and everything fed to it. */
  datatype Running = Running(algo: Algo, fed: bytes)

  type Table = map<nat, Running>

  type Hash = Running -> bytes

  /** Whether the backend's own calls (setup, update, finish, duplicate) succeed. */
  type Works = bool

  // The table operations of the backend. A new entry lives at `addr`, the address of its box.

  function TableInit(t: Table, algo: Algo, addr: nat, works: Works): (Table, Option<nat>) {
    if algo.OtherAlgo? || !works then (t, None) else (t[addr := Running(algo, [])], Some(addr))
  }

  function TableUpdate(t: Table, h: nat, data: bytes, works: Works): (Table, bool) {
    if h in t && works then (t[h := t[h].(fed := t[h].fed + data)], true) else (t, false)
  }

  function TableFinalize(t: Table, hash: Hash, h: nat, works: Works): (Table, Option<bytes>) {
    if h !in t then (t, None) else (t - {h}, if works then Some(hash(t[h])) else None)
  }

  function TableDup(t: Table, h: nat, addr: nat, works: Works): (Table, Option<nat>) {
    if h !in t || !works then (t, None) else (t[addr := t[h]], Some(addr))
  }

  class HashCtxTable {
    var table: Table

    constructor ()
      ensures table == map[]
    {
      table := map[];
    }

    method InsertToTable(ctx: Running, addr: nat) returns (h: nat)
      modifies this
      ensures table == old(table)[addr := ctx] && h == addr
    {
      table := table[addr := ctx];
      h := addr;
    }

    method Init(algo: Algo, addr: nat, works: Works) returns (r: Option<nat>)
      modifies this
      ensures (table, r) == TableInit(old(table), algo, addr, works)
    {
      if algo == OtherAlgo || !works {
        return None;
      }
      var h := InsertToTable(Running(algo, []), addr);
      r := Some(h);
    }

    method Update(h: nat, data: bytes, works: Works) returns (ok: bool)
      modifies this
      ensures (table, ok) == TableUpdate(old(table), h, data, works)
    {
      if h !in table {
        return false;
      }
      if works {
        table := table[h := table[h].(fed := table[h].fed + data)];
      }
      ok := works;
    }

    method Finalize(hash: Hash, h: nat, works: Works) returns (r: Option<bytes>)
      modifies this
      ensures (table, r) == TableFinalize(old(table), hash, h, works)
    {
      if h !in table {
        return None;
      }
      var ctx := table[h];
      table := table - {h};
      r := if works then Some(hash(ctx)) else None;
    }

    method Dup(h: nat, addr: nat, works: Works) returns (r: Option<nat>)
      modifies this
      ensures (table, r) == TableDup(old(table), h, addr, works)
    {
      if h !in table || !works {
        return None;
      }
      var copy := InsertToTable(table[h], addr);
      r := Some(copy);
    }
  }

  /** A digest context value; handle 0 owns nothing. */
  class SpdmHashCtx {
    var handle: nat

    constructor (handle: nat)
      ensures this.handle == handle
    {
      this.handle := handle;
    }

    /** `hash_ctx_finalize` takes the value: the handle is cleared before the entry is removed, so the
        drop at the end of the call finds nothing to do. */
    method Finalize(backend: HashCtxTable, hash: Hash, works: Works) returns (r: Option<bytes>)
      modifies this, backend
      ensures handle == 0
      ensures (backend.table, r) == TableFinalize(old(backend.table), hash, old(handle), works)
      decreases 1, 0
    {
      var h := handle;
      handle := 0;
      r := backend.Finalize(hash, h, works);
      Drop(backend, hash, works);
    }

    method Drop(backend: HashCtxTable, hash: Hash, works: Works)
      modifies this, backend
      ensures backend.table == if old(handle) == 0 then old(backend.table) else TableFinalize(old(backend.table), hash, old(handle), works).0
      ensures handle == old(handle)
      decreases if handle == 0 then 0 else 2, 0
    {
      if handle != 0 {
        var taken := new SpdmHashCtx(handle);
        var _ := taken.Finalize(backend, hash, works);
      }
    }
  }

  // Programs over digest contexts. A program names the values it holds; the ideal machine keeps for
  // each name what was fed to it and to the values it was cloned from, and knows no handles.

  type Name = nat

  datatype CtxOp =
    | Init(name: Name, algo: Algo, addr: nat, works: Works)
    | Default(name: Name)
    | Update(name: Name, data: bytes, works: Works)
    | Clone(name: Name, copy: Name, addr: nat, works: Works)
    | Finalize(name: Name, works: Works)
    | Drop(name: Name, works: Works)

  datatype Store = Store(table: Table, owners: map<Name, nat>) {

    /** What ownership and the allocator guarantee: a used value is held, a new name is new, and the
        address of a new box is neither null nor that of a box still in the table. */
    predicate Enabled(op: CtxOp) {
      match op
      case Init(name, _, addr, _) => name !in owners && addr != 0 && addr !in table
      case Default(name) => name !in owners
      case Update(name, _, _) => name in owners
      case Clone(name, copy, addr, _) => name in owners && copy !in owners && addr != 0 && addr !in table
      case Finalize(name, _) => name in owners
      case Drop(name, _) => name in owners
    }

    /** Cloning a value whose context cannot be duplicated panics. */
    predicate Panics(op: CtxOp)
      requires Enabled(op)
    {
      op.Clone? && TableDup(table, owners[op.name], op.addr, op.works).1.None?
    }

    /** The store after an operation; after a panic there is none to speak of. */
    function Next(op: CtxOp, hash: Hash): Store
      requires Enabled(op) && !Panics(op)
    {
      match op
      case Init(name, algo, addr, works) =>
        var r := TableInit(table, algo, addr, works);
        if r.1.Some? then Store(r.0, owners[name := r.1.value]) else this
      case Default(name) => Store(table, owners[name := 0])
      case Update(name, data, works) => Store(TableUpdate(table, owners[name], data, works).0, owners)
      case Clone(name, copy, addr, works) =>
        var r := TableDup(table, owners[name], addr, works);
        Store(r.0, owners[copy := r.1.value])
      case Finalize(name, works) => Store(TableFinalize(table, hash, owners[name], works).0, owners - {name})
      case Drop(name, works) =>
        Store(if owners[name] == 0 then table else TableFinalize(table, hash, owners[name], works).0, owners - {name})
    }

    /** The digest an operation returns. */
    function Digest(op: CtxOp, hash: Hash): Option<bytes>
      requires Enabled(op)
    {
      if op.Finalize? then TableFinalize(table, hash, owners[op.name], op.works).1 else None
    }

    /** Handles in use and table entries are in bijection, and each entry holds its owner's lineage. */
    ghost predicate Refines(ideal: map<Name, Running>) {
      && 0 !in table
      && (forall n :: n in ideal ==> n in owners && owners[n] in table && table[owners[n]] == ideal[n])
      && (forall n :: n in owners && owners[n] != 0 ==> n in ideal)
      && (forall m, n :: m in ideal && n in ideal && owners[m] == owners[n] ==> m == n)
      && (forall h :: h in table ==> HasOwner(ideal, h))
    }

    ghost predicate HasOwner(ideal: map<Name, Running>, h: nat) {
      exists n :: n in ideal && n in owners && owners[n] == h
    }
  }

  function IdealNext(ideal: map<Name, Running>, op: CtxOp): map<Name, Running> {
    match op
    case Init(name, algo, _, works) => if algo.OtherAlgo? || !works then ideal else ideal[name := Running(algo, [])]
    case Default(_) => ideal
    case Update(name, data, works) =>
      if name in ideal && works then ideal[name := ideal[name].(fed := ideal[name].fed + data)] else ideal
    case Clone(name, copy, _, _) => if name in ideal then ideal[copy := ideal[name]] else ideal
    case Finalize(name, _) => ideal - {name}
    case Drop(name, _) => ideal - {name}
  }

  function IdealDigest(ideal: map<Name, Running>, op: CtxOp, hash: Hash): Option<bytes> {
    if op.Finalize? && op.name in ideal && op.works then Some(hash(ideal[op.name])) else None
  }

  /** A new entry under a new name. */
  lemma AddKeepsRefines(s: Store, ideal: map<Name, Running>, name: Name, addr: nat, ctx: Running)
    requires s.Refines(ideal) && name !in s.owners && addr != 0 && addr !in s.table
    ensures Store(s.table[addr := ctx], s.owners[name := addr]).Refines(ideal[name := ctx])
  {
    var s', ideal' := Store(s.table[addr := ctx], s.owners[name := addr]), ideal[name := ctx];
    forall h | h in s'.table
      ensures s'.HasOwner(ideal', h)
    {
      if h == addr {
        assert name in ideal' && s'.owners[name] == h;
      } else {
        assert s.HasOwner(ideal, h);
        var n :| n in ideal && n in s.owners && s.owners[n] == h;
        assert n in ideal' && s'.owners[n] == h;
      }
    }
  }

  /** An entry removed together with its owner. */
  lemma RemoveKeepsRefines(s: Store, ideal: map<Name, Running>, name: Name)
    requires s.Refines(ideal) && name in s.owners
    ensures Store(s.table - {s.owners[name]}, s.owners - {name}).Refines(ideal - {name})
  {
    var s', ideal' := Store(s.table - {s.owners[name]}, s.owners - {name}), ideal - {name};
    forall h | h in s'.table
      ensures s'.HasOwner(ideal', h)
    {
      assert s.HasOwner(ideal, h);
      var n :| n in ideal && n in s.owners && s.owners[n] == h;
      assert n in ideal' && s'.owners[n] == h;
    }
  }

  lemma UpdateKeepsRefines(s: Store, ideal: map<Name, Running>, name: Name, ctx: Running)
    requires s.Refines(ideal) && name in ideal
    ensures Store(s.table[s.owners[name] := ctx], s.owners).Refines(ideal[name := ctx])
  {
    var s', ideal' := Store(s.table[s.owners[name] := ctx], s.owners), ideal[name := ctx];
    forall h | h in s'.table
      ensures s'.HasOwner(ideal', h)
    {
      assert h in s.table;
      assert s.HasOwner(ideal, h);
      var n :| n in ideal && n in s.owners && s.owners[n] == h;
      assert n in ideal' && s'.owners[n] == h;
    }
  }

  lemma DefaultKeepsRefines(s: Store, ideal: map<Name, Running>, name: Name)
    requires s.Refines(ideal) && name !in s.owners
    ensures Store(s.table, s.owners[name := 0]).Refines(ideal)
  {
    var s' := Store(s.table, s.owners[name := 0]);
    assert name !in ideal;
    assert forall n :: n in ideal ==> n in s'.owners && s'.owners[n] == s.owners[n];
    forall h | h in s'.table
      ensures s'.HasOwner(ideal, h)
    {
      assert s.HasOwner(ideal, h);
      var n :| n in ideal && n in s.owners && s.owners[n] == h;
      assert s'.owners[n] == h;
    }
  }

  /** Every operation of the handle machine does what the ideal machine does and returns its digest. */
  lemma StepRefines(s: Store, ideal: map<Name, Running>, op: CtxOp, hash: Hash)
    requires s.Refines(ideal) && s.Enabled(op)
    ensures s.Panics(op) <==> op.Clone? && (op.name !in ideal || !op.works)
    ensures !s.Panics(op) ==> s.Next(op, hash).Refines(IdealNext(ideal, op))
    ensures s.Digest(op, hash) == IdealDigest(ideal, op, hash)
  {
    match op
    case Init(name, algo, addr, works) => AddKeepsRefines(s, ideal, name, addr, Running(algo, []));
    case Default(name) => DefaultKeepsRefines(s, ideal, name);
    case Update(name, data, works) =>
      if name in ideal && works {
        UpdateKeepsRefines(s, ideal, name, ideal[name].(fed := ideal[name].fed + data));
      }
    case Clone(name, copy, addr, works) =>
      if name in ideal && works {
        AddKeepsRefines(s, ideal, copy, addr, ideal[name]);
      }
    case Finalize(name, _) =>
      RemoveKeepsRefines(s, ideal, name);
      assert s.owners[name] !in s.table ==> s.table - {s.owners[name]} == s.table;
    case Drop(name, _) =>
      RemoveKeepsRefines(s, ideal, name);
      assert s.owners[name] !in s.table ==> s.table - {s.owners[name]} == s.table;
  }

  /** A run of the handle machine from the empty table, with the digests it returned. */
  ghost predicate IsRun(ss: seq<Store>, ops: seq<CtxOp>, hash: Hash) {
    && |ss| == |ops| + 1
    && ss[0] == Store(map[], map[])
    && forall i :: 0 <= i < |ops| ==> ss[i].Enabled(ops[i]) && !ss[i].Panics(ops[i]) && ss[i + 1] == ss[i].Next(ops[i], hash)
  }

  /** What the names hold after a sequence of operations, computed without any table. */
  function Lineage(ops: seq<CtxOp>): map<Name, Running> {
    if ops == [] then map[] else IdealNext(Lineage(ops[..|ops| - 1]), ops[|ops| - 1])
  }

  /** Over any interleaving: live handles and entries stay in bijection, and every finalize returns the
      hash of exactly the bytes fed through that value's lineage. */
  lemma {:induction false} OwnershipRun(ss: seq<Store>, ops: seq<CtxOp>, hash: Hash, i: nat)
    requires IsRun(ss, ops, hash) && i <= |ops|
    ensures ss[i].Refines(Lineage(ops[..i]))
    ensures i < |ops| ==> ss[i].Enabled(ops[i]) && ss[i].Digest(ops[i], hash) == IdealDigest(Lineage(ops[..i]), ops[i], hash)
    decreases i
  {
    if i > 0 {
      OwnershipRun(ss, ops, hash, i - 1);
      StepRefines(ss[i - 1], Lineage(ops[..i - 1]), ops[i - 1], hash);
      assert ops[..i][..i - 1] == ops[..i - 1];
    }
    if i < |ops| {
      StepRefines(ss[i], Lineage(ops[..i]), ops[i], hash);
    }
  }

  /** Hashing a running transcript: clone, then finalize the clone. The running context and the whole
      table are as before, and the digest is that of everything fed so far. */
  lemma TranscriptHashLeavesTable(s: Store, ideal: map<Name, Running>, hash: Hash, name: Name, copy: Name, addr: nat)
    requires s.Refines(ideal) && name in ideal && copy !in s.owners && addr != 0 && addr !in s.table
    ensures var clone := Clone(name, copy, addr, true);
            && s.Enabled(clone) && !s.Panics(clone)
            && var s1 := s.Next(clone, hash);
               && s1.Enabled(Finalize(copy, true))
               && s1.Digest(Finalize(copy, true), hash) == Some(hash(ideal[name]))
               && s1.Next(Finalize(copy, true), hash) == s
  {
    var s1 := s.Next(Clone(name, copy, addr, true), hash);
    assert s1.table - {addr} == s.table && s1.owners - {copy} == s.owners;
  }
}
