/** The hashed build refines the raw build: over every run in which the raw build has room for each message,
    B precedes C, and K precedes F, every live digest is the hash of the raw concatenation of the messages the
    hashed build accepted, exactly as long as no failing backend call cut a seed short. */
module TranscriptRefinement {
  import opened Bytes
  import opened HashCtx
  import opened ManagedBuffer
  import opened Transcript

  /** A running digest that stands for `seed` followed by a raw buffer; none while the buffer is empty. */
  predicate Tracks(d: Option<Running>, algo: Algo, seed: bytes, raw: bytes) {
    match d
    case None => raw == []
    case Some(run) => run == Running(algo, seed + raw)
  }

  /** What seeds the TH digest of a session, as one string. */
  function ThSeed(s: SessionInfo): bytes {
    s.messageA + (if s.rspCertHash.Some? then s.rspCertHash.value else [])
  }

  function MutAuthHash(p: Info, s: SessionInfo): Outcome<bytes> {
    if !s.usePsk && s.mutAuth then p.ReqChainHash(InvalidStateLocal) else Ok([])
  }

  lemma SeedsFlat(p: Info, s: SessionInfo)
    ensures Flat([p.messageA]) == p.messageA && Flat(p.L1L2Parts()) == p.L1L2Prefix() && Flat(ThParts(s)) == ThSeed(s)
    ensures MutAuthParts(p, s).Ok? <==> MutAuthHash(p, s).Ok?
    ensures MutAuthHash(p, s).Ok? ==> Flat(MutAuthParts(p, s).value) == MutAuthHash(p, s).value
  {
    assert forall m: bytes {:trigger Flat([m])} :: Flat([m]) == m + Flat([]) == m;
    if s.rspCertHash.Some? {
      assert ThParts(s)[1..] == [s.rspCertHash.value];
    } else {
      assert ThParts(s) == [s.messageA];
    }
  }

  lemma FlatOne(part: bytes)
    ensures Flat([part]) == part
  {
    assert Flat([part]) == part + Flat([]);
  }

  lemma {:induction false} FlatEnd(parts: seq<bytes>, message: bytes)
    ensures Flat(parts + [message]) == Flat(parts) + message
    decreases |parts|
  {
    if parts == [] {
      assert [] + [message] == [message] && Flat([message]) == message + Flat([]);
    } else {
      assert (parts + [message])[1..] == parts[1..] + [message];
      FlatEnd(parts[1..], message);
    }
  }

  /** The K and F part of a TH transcript, with the requester's certificate hash between them. */
  function KF(p: Info, s: SessionInfo, r: RawSession, fStarted: bool): bytes
    requires fStarted ==> MutAuthHash(p, s).Ok?
  {
    r.k + (if fStarted then MutAuthHash(p, s).value else []) + r.f
  }

  predicate SessionSim(p: Info, s: SessionInfo, r: RawSession, h: HashedSession) {
    && Tracks(h.l1l2, p.algo, p.L1L2Prefix(), r.m)
    && (h.fStarted ==> h.th.Some? && MutAuthHash(p, s).Ok?)
    && (!h.fStarted ==> r.f == [])
    && Tracks(h.th, s.algo, ThSeed(s), KF(p, s, r, h.fStarted))
  }

  predicate Sim(p: Info, r: Raw, h: Hashed) {
    && |r.sessions| == |h.sessions| == |p.sessions|
    && Tracks(h.m1m2, p.algo, p.messageA, r.b + r.c)
    && Tracks(h.l1l2, p.algo, p.L1L2Prefix(), r.m)
    && forall i :: 0 <= i < |p.sessions| ==> SessionSim(p, p.sessions[i], r.sessions[i], h.sessions[i])
  }

  /** No panic; and when the hashed build accepts the operation, so does the raw build, B is closed once C
      has begun, and K once F has begun. */
  predicate Orderly(p: Info, r: Raw, h: Hashed, op: Op, works: nat)
    requires |r.sessions| == |h.sessions| == |p.sessions|
  {
    && !HashedStep(p, h, op, works).1.Abort?
    && (HashedStep(p, h, op, works).1.Ok? ==>
          && RawStep(p, r, op).1.Ok?
          && match op
             case AppendB(_) => r.c == []
             case AppendK(id, _) => p.Find(id).Some? && !h.sessions[p.Find(id).value].fStarted
             case Reset(GetDigests, _, _) => r.c == []
             case _ => true)
  }

  /** The raw build beside the hashed one: a message the hashed build refuses is skipped. */
  function RawNext(p: Info, r: Raw, h: Hashed, op: Op, works: nat): Raw
    requires |r.sessions| == |h.sessions| == |p.sessions|
  {
    if HashedStep(p, h, op, works).1.Ok? then RawStep(p, r, op).0 else r
  }

  /** A missing digest is made, and the backend fails before it has taken all of a seed that has more bytes. */
  predicate LosesSeed(d: Option<Running>, algo: Algo, seed: seq<bytes>, works: nat) {
    d.None? && !algo.OtherAlgo? && 1 <= works <= |seed| && Flat(seed[works - 1..]) != []
  }

  predicate StepLosesSeed(p: Info, h: Hashed, op: Op, works: nat)
    requires |h.sessions| == |p.sessions|
  {
    match op
    case AppendB(_) => LosesSeed(h.m1m2, p.algo, [p.messageA], works)
    case AppendC(_) => LosesSeed(h.m1m2, p.algo, [p.messageA], works)
    case AppendM(None, _) => LosesSeed(h.l1l2, p.algo, p.L1L2Parts(), works)
    case AppendM(Some(id), _) => p.Find(id).Some? && LosesSeed(h.sessions[p.Find(id).value].l1l2, p.algo, p.L1L2Parts(), works)
    case AppendK(id, _) =>
      p.Find(id).Some? && LosesSeed(h.sessions[p.Find(id).value].th, p.sessions[p.Find(id).value].algo,
                                    ThParts(p.sessions[p.Find(id).value]), works)
    case _ => false
  }

  lemma FedTracks(d: Option<Running>, algo: Algo, seed: seq<bytes>, raw: bytes, message: bytes, works: nat, e: Status)
    requires Tracks(d, algo, Flat(seed), raw) && Fed(d, algo, seed, message, works, e).1.Ok?
    ensures Tracks(Fed(d, algo, seed, message, works, e).0, algo, Flat(seed), raw + message)
    ensures !LosesSeed(d, algo, seed, works)
  {
    FlatEnd(seed, message);
    FlatOne(message);
    assert Flat(seed) + (raw + message) == Flat(seed) + raw + message;
    match d
    case None =>
      FeedAllTakes(Running(algo, []), seed + [message], works - 1);
      assert raw + message == message;
    case Some(run) => FeedAllTakes(run, [message], works);
  }

  /** A refused message leaves a digest that stands for what it did, unless it lost its seed. */
  lemma FedRefused(d: Option<Running>, algo: Algo, seed: seq<bytes>, raw: bytes, message: bytes, works: nat, e: Status)
    requires Tracks(d, algo, Flat(seed), raw) && !Fed(d, algo, seed, message, works, e).1.Ok?
    ensures Tracks(Fed(d, algo, seed, message, works, e).0, algo, Flat(seed), raw) <==> !LosesSeed(d, algo, seed, works)
  {
    if d.None? && !algo.OtherAlgo? && works > 0 {
      var k := works - 1;
      FeedAllTakes(Running(algo, []), seed + [message], k);
      FeedAllStops(Running(algo, []), seed + [message], k);
      assert (seed + [message])[..k] == seed[..k];
      FlatSplit(seed, k);
      assert [] + Flat(seed[..k]) == Flat(seed[..k]);
      assert Flat(seed) + [] == Flat(seed[..k]) + Flat(seed[k..]);
      assert Flat(seed[k..]) == [] <==> |Flat(seed)| == |Flat(seed[..k])|;
    } else if d.Some? {
      FeedAllTakes(d.value, [message], works);
    }
  }

  lemma AppendFSim(p: Info, s: SessionInfo, r: RawSession, h: HashedSession, message: bytes, works: nat)
    requires SessionSim(p, s, r, h) && HashedAppendF(p, s, h, message, works).1.Ok?
    ensures SessionSim(p, s, r.(f := r.f + message), HashedAppendF(p, s, h, message, works).0)
  {
    HashedAppendFOk(p, s, h, message, works);
    var seed, mut := ThSeed(s), MutAuthHash(p, s).value;
    if h.fStarted {
      assert seed + (r.k + mut + (r.f + message)) == seed + (r.k + mut + r.f) + [] + message;
    } else {
      assert r.k + [] + r.f == r.k && r.f + message == message;
      assert seed + (r.k + mut + (r.f + message)) == seed + r.k + mut + message;
    }
  }

  /** A successful F append feeds the certificate hash once, and the message. */
  lemma HashedAppendFOk(p: Info, s: SessionInfo, h: HashedSession, message: bytes, works: nat)
    requires HashedAppendF(p, s, h, message, works).1.Ok?
    ensures h.th.Some? && (!h.fStarted ==> MutAuthHash(p, s).Ok?)
    ensures var first := if h.fStarted then [] else MutAuthHash(p, s).value;
            HashedAppendF(p, s, h, message, works).0
            == h.(th := Some(h.th.value.(fed := h.th.value.fed + first + message)), fStarted := true)
  {
    SeedsFlat(p, s);
    FlatOne(message);
    var parts := if h.fStarted then [] else MutAuthParts(p, s).value;
    var run := h.th.value;
    FeedAllTakes(run, parts, works);
    FeedAllTakes(FeedAll(run, parts, works).0, [message], works - |parts|);
  }

  /** A refused F message may have fed the certificate hash; it is not fed again. */
  lemma AppendFRefused(p: Info, s: SessionInfo, r: RawSession, h: HashedSession, message: bytes, works: nat)
    requires SessionSim(p, s, r, h) && HashedAppendF(p, s, h, message, works).1.Err?
    ensures SessionSim(p, s, r, HashedAppendF(p, s, h, message, works).0)
  {
    if h.th.Some? && (h.fStarted || MutAuthParts(p, s).Ok?) {
      SeedsFlat(p, s);
      var parts := if h.fStarted then [] else MutAuthParts(p, s).value;
      var run := h.th.value;
      FeedAllTakes(run, parts, works);
      if |parts| <= works {
        FeedAllTakes(FeedAll(run, parts, works).0, [message], works - |parts|);
        FeedAllStops(FeedAll(run, parts, works).0, [message], works - |parts|);
        RefusedFFed(p, s, r, h, parts, FeedAll(run, parts, works).0);
      } else {
        FeedAllStops(run, parts, works);
        assert parts[..0] == [] && run.fed + [] == run.fed;
      }
    }
  }

  lemma RefusedFFed(p: Info, s: SessionInfo, r: RawSession, h: HashedSession, parts: seq<bytes>, fed: Running)
    requires SessionSim(p, s, r, h) && h.th.Some? && (!h.fStarted ==> MutAuthHash(p, s).Ok?)
    requires Flat(parts) == if h.fStarted then [] else MutAuthHash(p, s).value
    requires fed == h.th.value.(fed := h.th.value.fed + Flat(parts))
    ensures SessionSim(p, s, r, h.(th := Some(fed), fStarted := true))
  {
    var seed, mut := ThSeed(s), MutAuthHash(p, s).value;
    if h.fStarted {
      assert h.th.value.fed + [] == h.th.value.fed;
    } else {
      assert r.k + [] + r.f == r.k;
      assert seed + (r.k + mut + r.f) == seed + r.k + mut;
    }
  }

  lemma AppendKSim(p: Info, s: SessionInfo, r: RawSession, h: HashedSession, message: bytes, works: nat)
    requires SessionSim(p, s, r, h) && !h.fStarted && Fed(h.th, s.algo, ThParts(s), message, works, CryptoError).1.Ok?
    ensures SessionSim(p, s, r.(k := r.k + message), h.(th := Fed(h.th, s.algo, ThParts(s), message, works, CryptoError).0))
    ensures !LosesSeed(h.th, s.algo, ThParts(s), works)
  {
    SeedsFlat(p, s);
    assert r.k + [] + r.f == r.k && (r.k + message) + [] + r.f == r.k + message;
    FedTracks(h.th, s.algo, ThParts(s), r.k, message, works, CryptoError);
  }

  lemma AppendKRefused(p: Info, s: SessionInfo, r: RawSession, h: HashedSession, message: bytes, works: nat)
    requires SessionSim(p, s, r, h) && !Fed(h.th, s.algo, ThParts(s), message, works, CryptoError).1.Ok?
    ensures SessionSim(p, s, r, h.(th := Fed(h.th, s.algo, ThParts(s), message, works, CryptoError).0))
            <==> !LosesSeed(h.th, s.algo, ThParts(s), works)
  {
    SeedsFlat(p, s);
    FedRefused(h.th, s.algo, ThParts(s), KF(p, s, r, h.fStarted), message, works, CryptoError);
  }

  lemma AppendBCSim(p: Info, r: Raw, h: Hashed, op: Op, works: nat)
    requires Sim(p, r, h) && (op.AppendB? || op.AppendC?) && Orderly(p, r, h, op, works)
    ensures Sim(p, RawNext(p, r, h, op, works), HashedStep(p, h, op, works).0) <==> !StepLosesSeed(p, h, op, works)
  {
    FlatOne(p.messageA);
    var e := if op.AppendB? then InvalidStateLocal else CryptoError;
    if HashedStep(p, h, op, works).1.Ok? {
      FedTracks(h.m1m2, p.algo, [p.messageA], r.b + r.c, op.message, works, e);
      if op.AppendB? {
        assert r.b + r.c + op.message == (r.b + op.message) + r.c;
      } else {
        assert r.b + r.c + op.message == r.b + (r.c + op.message);
      }
    } else {
      FedRefused(h.m1m2, p.algo, [p.messageA], r.b + r.c, op.message, works, e);
    }
  }

  lemma AppendMSim(p: Info, r: Raw, h: Hashed, op: Op, works: nat)
    requires Sim(p, r, h) && op.AppendM? && op.session.None? && Orderly(p, r, h, op, works)
    ensures Sim(p, RawNext(p, r, h, op, works), HashedStep(p, h, op, works).0) <==> !StepLosesSeed(p, h, op, works)
  {
    FlatOne(p.messageA);
    if HashedStep(p, h, op, works).1.Ok? {
      FedTracks(h.l1l2, p.algo, p.L1L2Parts(), r.m, op.message, works, CryptoError);
    } else {
      FedRefused(h.l1l2, p.algo, p.L1L2Parts(), r.m, op.message, works, CryptoError);
    }
  }

  /** A step that changes one session. */
  lemma SessionStepSim(p: Info, r: Raw, h: Hashed, i: nat, x: RawSession, y: HashedSession)
    requires Sim(p, r, h) && i < |p.sessions|
    ensures Sim(p, r.(sessions := r.sessions[i := x]), h.(sessions := h.sessions[i := y])) <==> SessionSim(p, p.sessions[i], x, y)
  {
    var r', h' := r.(sessions := r.sessions[i := x]), h.(sessions := h.sessions[i := y]);
    if Sim(p, r', h') {
      assert SessionSim(p, p.sessions[i], r'.sessions[i], h'.sessions[i]);
    }
  }

  lemma SessionAppendMSim(p: Info, r: Raw, h: Hashed, op: Op, works: nat)
    requires Sim(p, r, h) && op.AppendM? && op.session.Some? && Orderly(p, r, h, op, works)
    ensures Sim(p, RawNext(p, r, h, op, works), HashedStep(p, h, op, works).0) <==> !StepLosesSeed(p, h, op, works)
  {
    FlatOne(p.messageA);
    if p.Find(op.session.value).Some? {
      var i := p.Find(op.session.value).value;
      var x, y := r.sessions[i], h.sessions[i];
      var d := Fed(y.l1l2, p.algo, p.L1L2Parts(), op.message, works, CryptoError);
      if d.1.Ok? {
        FedTracks(y.l1l2, p.algo, p.L1L2Parts(), x.m, op.message, works, CryptoError);
        SessionStepSim(p, r, h, i, x.(m := x.m + op.message), y.(l1l2 := d.0));
      } else {
        FedRefused(y.l1l2, p.algo, p.L1L2Parts(), x.m, op.message, works, CryptoError);
        SessionStepSim(p, r, h, i, x, y.(l1l2 := d.0));
        assert r.sessions[i := x] == r.sessions;
      }
    }
  }

  lemma AppendKStepSim(p: Info, r: Raw, h: Hashed, op: Op, works: nat)
    requires Sim(p, r, h) && op.AppendK? && Orderly(p, r, h, op, works)
    ensures Sim(p, RawNext(p, r, h, op, works), HashedStep(p, h, op, works).0) <==> !StepLosesSeed(p, h, op, works)
  {
    var i := p.Find(op.id).value;
    var s, x, y := p.sessions[i], r.sessions[i], h.sessions[i];
    var d := Fed(y.th, s.algo, ThParts(s), op.message, works, CryptoError);
    if d.1.Ok? {
      AppendKSim(p, s, x, y, op.message, works);
      SessionStepSim(p, r, h, i, x.(k := x.k + op.message), y.(th := d.0));
    } else {
      AppendKRefused(p, s, x, y, op.message, works);
      SessionStepSim(p, r, h, i, x, y.(th := d.0));
      assert r.sessions[i := x] == r.sessions;
    }
  }

  lemma AppendFStepSim(p: Info, r: Raw, h: Hashed, op: Op, works: nat)
    requires Sim(p, r, h) && op.AppendF? && Orderly(p, r, h, op, works)
    ensures Sim(p, RawNext(p, r, h, op, works), HashedStep(p, h, op, works).0)
  {
    var i := p.Find(op.id).value;
    var s, x, y := p.sessions[i], r.sessions[i], h.sessions[i];
    var d := HashedAppendF(p, s, y, op.message, works);
    if d.1.Ok? {
      AppendFSim(p, s, x, y, op.message, works);
      SessionStepSim(p, r, h, i, x.(f := x.f + op.message), d.0);
    } else {
      AppendFRefused(p, s, x, y, op.message, works);
      SessionStepSim(p, r, h, i, x, d.0);
      assert r.sessions[i := x] == r.sessions;
    }
  }

  lemma ResetSim(p: Info, r: Raw, h: Hashed, opcode: Opcode, session: Option<nat>, authenticated: bool)
    requires Sim(p, r, h) && (opcode.GetDigests? ==> r.c == [])
    ensures Sim(p, RawReset(p, r, opcode, session, authenticated), HashedReset(p, h, opcode, session, authenticated))
  {
    var r', h' := RawResetM(p, r, session), HashedResetM(p, h, session);
    assert Sim(p, r', h');
  }

  /** Every step keeps the relation, unless a refused message loses the seed of a digest: then it is lost. */
  lemma StepSim(p: Info, r: Raw, h: Hashed, op: Op, works: nat)
    requires Sim(p, r, h) && Orderly(p, r, h, op, works)
    ensures Sim(p, RawNext(p, r, h, op, works), HashedStep(p, h, op, works).0) <==> !StepLosesSeed(p, h, op, works)
  {
    match op
    case AppendB(_) => AppendBCSim(p, r, h, op, works);
    case AppendC(_) => AppendBCSim(p, r, h, op, works);
    case AppendM(None, _) => AppendMSim(p, r, h, op, works);
    case AppendM(Some(_), _) => SessionAppendMSim(p, r, h, op, works);
    case AppendK(_, _) => AppendKStepSim(p, r, h, op, works);
    case AppendF(_, _) => AppendFStepSim(p, r, h, op, works);
    case Reset(opcode, session, authenticated) => ResetSim(p, r, h, opcode, session, authenticated);
  }

  function RawStart(p: Info): (r: Raw)
    ensures |r.sessions| == |p.sessions|
  {
    Raw([], [], [], seq(|p.sessions|, _ => RawSession([], [], [])))
  }

  function HashedStart(p: Info): (h: Hashed)
    ensures |h.sessions| == |p.sessions|
  {
    Hashed(None, None, seq(|p.sessions|, _ => HashedSession(None, false, None)))
  }

  /** A run of both builds side by side from empty transcripts; `works[i]` is how many backend calls of the
      `i`-th operation succeed. */
  ghost predicate IsRun(p: Info, rs: seq<Raw>, hs: seq<Hashed>, ops: seq<Op>, works: seq<nat>) {
    && |rs| == |hs| == |ops| + 1 && |works| == |ops|
    && rs[0] == RawStart(p) && hs[0] == HashedStart(p)
    && forall i :: 0 <= i < |ops| ==>
         && |rs[i].sessions| == |hs[i].sessions| == |p.sessions|
         && Orderly(p, rs[i], hs[i], ops[i], works[i])
         && rs[i + 1] == RawNext(p, rs[i], hs[i], ops[i], works[i]) && hs[i + 1] == HashedStep(p, hs[i], ops[i], works[i]).0
  }

  /** No operation of a run, up to the `n`-th, loses a seed. */
  ghost predicate KeepsSeeds(p: Info, hs: seq<Hashed>, ops: seq<Op>, works: seq<nat>, n: nat) {
    n <= |ops| && |ops| == |works| < |hs|
    && forall i :: 0 <= i < n ==> |hs[i].sessions| == |p.sessions| && !StepLosesSeed(p, hs[i], ops[i], works[i])
  }

  lemma {:induction false} RunSimTo(p: Info, rs: seq<Raw>, hs: seq<Hashed>, ops: seq<Op>, works: seq<nat>, n: nat)
    requires IsRun(p, rs, hs, ops, works) && KeepsSeeds(p, hs, ops, works, n)
    ensures Sim(p, rs[n], hs[n])
    decreases n
  {
    if n > 0 {
      RunSimTo(p, rs, hs, ops, works, n - 1);
      StepSim(p, rs[n - 1], hs[n - 1], ops[n - 1], works[n - 1]);
    }
  }

  /** The relation holds all along a run if and only if no operation loses a seed. */
  lemma RunSim(p: Info, rs: seq<Raw>, hs: seq<Hashed>, ops: seq<Op>, works: seq<nat>)
    requires IsRun(p, rs, hs, ops, works)
    ensures (forall n :: 0 <= n <= |ops| ==> Sim(p, rs[n], hs[n])) <==> KeepsSeeds(p, hs, ops, works, |ops|)
  {
    if KeepsSeeds(p, hs, ops, works, |ops|) {
      forall n | 0 <= n <= |ops|
        ensures Sim(p, rs[n], hs[n])
      {
        RunSimTo(p, rs, hs, ops, works, n);
      }
    } else {
      var i :| 0 <= i < |ops| && StepLosesSeed(p, hs[i], ops[i], works[i]);
      if Sim(p, rs[i], hs[i]) {
        StepSim(p, rs[i], hs[i], ops[i], works[i]);
        assert !Sim(p, rs[i + 1], hs[i + 1]);
      }
    }
  }

  /** M1/M2 and L1/L2: after every run that keeps its seeds, each live digest finalizes to the hash of the raw transcript. */
  lemma MessageTranscripts(p: Info, rs: seq<Raw>, hs: seq<Hashed>, ops: seq<Op>, works: seq<nat>)
    requires IsRun(p, rs, hs, ops, works) && KeepsSeeds(p, hs, ops, works, |ops|) && !p.algo.OtherAlgo?
    ensures var r, h := rs[|ops|], hs[|ops|];
            && |r.sessions| == |h.sessions| == |p.sessions|
            && (h.m1m2.Some? ==> h.m1m2.value == Running(p.algo, p.messageA + r.b + r.c))
            && (h.l1l2.Some? ==> h.l1l2.value == Running(p.algo, if p.version >= 0x12 then p.messageA + r.m else r.m))
            && forall i {:trigger h.sessions[i]} :: 0 <= i < |h.sessions| && h.sessions[i].l1l2.Some? ==>
                 h.sessions[i].l1l2.value == Running(p.algo, if p.version >= 0x12 then p.messageA + r.sessions[i].m else r.sessions[i].m)
  {
    RunSimTo(p, rs, hs, ops, works, |ops|);
    var r := rs[|ops|];
    assert p.messageA + (r.b + r.c) == p.messageA + r.b + r.c;
    assert [] + r.m == r.m;
    forall i | 0 <= i < |hs[|ops|].sessions| && hs[|ops|].sessions[i].l1l2.Some?
      ensures hs[|ops|].sessions[i].l1l2.value == Running(p.algo, if p.version >= 0x12 then p.messageA + r.sessions[i].m else r.sessions[i].m)
    {
      assert SessionSim(p, p.sessions[i], r.sessions[i], hs[|ops|].sessions[i]);
      assert [] + r.sessions[i].m == r.sessions[i].m;
    }
  }

  /** The session was created with the context's own A, algorithm and responder certificate. */
  predicate Consistent(p: Info, s: SessionInfo, slot: nat) {
    && s.algo == p.algo && s.messageA == p.messageA
    && if s.usePsk then s.rspCertHash == None
       else
         var chains := if p.isRequester then p.peer else p.my;
         slot < |chains| && chains[slot].Some? && p.algo != OtherAlgo && s.rspCertHash == Some(p.hash(Running(p.algo, chains[slot].value)))
  }

  /** `calc_*_transcript_hash` of the raw build. */
  function RawTranscriptHash(p: Info, usePsk: bool, slot: nat, isMutAuth: bool, r: RawSession): Outcome<bytes> {
    var data :- p.TranscriptData(usePsk, slot, isMutAuth, r.k, Some(r.f));
    match p.HashAll(data)
    case None => Err(CryptoError)
    case Some(digest) => Ok(digest)
  }

  /** `calc_*_transcript_hash` of the hashed build. */
  function HashedTranscriptHash(p: Info, h: HashedSession): Outcome<bytes> {
    match h.th
    case None => Err(InvalidStateLocal)
    case Some(run) => Ok(p.hash(run))
  }

  lemma ThAgree(p: Info, s: SessionInfo, slot: nat, r: RawSession, h: HashedSession)
    requires SessionSim(p, s, r, h) && Consistent(p, s, slot) && !p.algo.OtherAlgo? && h.th.Some?
    ensures RawTranscriptHash(p, s.usePsk, slot, h.fStarted && s.mutAuth, r) == HashedTranscriptHash(p, h)
  {
    var rsp := if s.usePsk then [] else p.RspChainHash(slot).value;
    var mut := if h.fStarted then MutAuthHash(p, s).value else [];
    assert ThSeed(s) == p.messageA + rsp;
    assert ThSeed(s) + (r.k + mut + r.f) == p.messageA + rsp + r.k + mut + r.f;
    assert p.ReqChainHash(InvalidStateLocal).Ok? ==> p.ReqChainHash(InvalidParameter) == p.ReqChainHash(InvalidStateLocal);
  }

  /** TH: after every run that keeps its seeds, for every session whose K has begun, the two builds return the same hash when
      the caller asks for mutual authentication exactly from the first F message on. */
  lemma ThTranscripts(p: Info, rs: seq<Raw>, hs: seq<Hashed>, ops: seq<Op>, works: seq<nat>, i: nat, slot: nat)
    requires IsRun(p, rs, hs, ops, works) && KeepsSeeds(p, hs, ops, works, |ops|) && !p.algo.OtherAlgo? && i < |p.sessions| && Consistent(p, p.sessions[i], slot)
    ensures var r, h := rs[|ops|], hs[|ops|];
            && |r.sessions| == |h.sessions| == |p.sessions|
            && (h.sessions[i].th.Some? ==>
                  RawTranscriptHash(p, p.sessions[i].usePsk, slot, h.sessions[i].fStarted && p.sessions[i].mutAuth, r.sessions[i])
                  == HashedTranscriptHash(p, h.sessions[i]))
  {
    RunSimTo(p, rs, hs, ops, works, |ops|);
    var r, h := rs[|ops|], hs[|ops|];
    assert SessionSim(p, p.sessions[i], r.sessions[i], h.sessions[i]);
    if h.sessions[i].th.Some? {
      ThAgree(p, p.sessions[i], slot, r.sessions[i], h.sessions[i]);
    }
  }

  // Where the builds part ways

  /** What the hashed build has hashed is A, B and C of the raw build. */
  predicate HashesRaw(p: Info, r: Raw, h: Hashed) {
    h.m1m2.Some? && h.m1m2.value.fed == p.messageA + r.b + r.c
  }

  /** The order of B and C matters exactly: a B message after C is hashed in its raw place if and only if
      it commutes with the C messages already there. */
  lemma AppendBHashesRawIff(p: Info, r: Raw, h: Hashed, message: bytes, works: nat)
    requires |r.sessions| == |h.sessions| == |p.sessions| && HashesRaw(p, r, h)
    requires RawStep(p, r, AppendB(message)).1.Ok? && HashedStep(p, h, AppendB(message), works).1.Ok?
    ensures HashesRaw(p, RawStep(p, r, AppendB(message)).0, HashedStep(p, h, AppendB(message), works).0)
            <==> message + r.c == r.c + message
  {
    FlatOne(message);
    FeedAllTakes(h.m1m2.value, [message], works);
    var left, right := p.messageA + (r.b + message) + r.c, p.messageA + r.b + r.c + message;
    assert left == p.messageA + r.b + (message + r.c);
    assert right == p.messageA + r.b + (r.c + message);
    var n := |p.messageA + r.b|;
    assert left[n..] == message + r.c && right[n..] == r.c + message;
  }

  /** A B message after GET_DIGESTS: the digest starts again with A and the message, the raw build still
      has C behind them, and the two agree if and only if there is no C. */
  lemma GetDigestsHashesRawIff(p: Info, r: Raw, h: Hashed, session: Option<nat>, authenticated: bool, message: bytes, works: nat)
    requires |r.sessions| == |h.sessions| == |p.sessions|
    requires var r', h' := RawReset(p, r, GetDigests, session, authenticated), HashedReset(p, h, GetDigests, session, authenticated);
             RawStep(p, r', AppendB(message)).1.Ok? && HashedStep(p, h', AppendB(message), works).1.Ok?
    ensures var r', h' := RawReset(p, r, GetDigests, session, authenticated), HashedReset(p, h, GetDigests, session, authenticated);
            HashesRaw(p, RawStep(p, r', AppendB(message)).0, HashedStep(p, h', AppendB(message), works).0) <==> r.c == []
  {
    FlatEnd([p.messageA], message);
    FlatOne(p.messageA);
    FeedAllTakes(Running(p.algo, []), [p.messageA] + [message], works - 1);
    assert |p.messageA + ([] + message) + r.c| == |p.messageA + message| + |r.c|;
  }

  const ONE: Op := AppendB([1])
  const TWO: Op := AppendC([2])

  /** From empty transcripts: B, C and B again. The digest has seen A, 1, 2, 1; the raw build has A, 1, 1, 2. */
  lemma BAfterC(p: Info)
    requires !p.algo.OtherAlgo?
    ensures var r := RawStep(p, RawStep(p, RawStep(p, RawStart(p), ONE).0, TWO).0, ONE);
            var h := HashedStep(p, HashedStep(p, HashedStep(p, HashedStart(p), ONE, 9).0, TWO, 9).0, ONE, 9);
            && r.1.Ok? && h.1.Ok? && r.0.b == [1, 1] && r.0.c == [2]
            && h.0.m1m2 == Some(Running(p.algo, p.messageA + [1, 2, 1])) && !HashesRaw(p, r.0, h.0)
  {
    var r, h := StartBC(p);
    FlatOne([1]);
    FeedAllTakes(h.m1m2.value, [[1]], 9);
    assert p.messageA + [1, 2] + [1] == p.messageA + [1, 2, 1];
    assert (p.messageA + [1, 2, 1])[|p.messageA| + 1] == 2 && (p.messageA + [1, 1] + [2])[|p.messageA| + 1] == 1;
  }

  lemma StartBC(p: Info) returns (r: Raw, h: Hashed)
    requires !p.algo.OtherAlgo?
    ensures r == RawStep(p, RawStep(p, RawStart(p), ONE).0, TWO).0 && h == HashedStep(p, HashedStep(p, HashedStart(p), ONE, 9).0, TWO, 9).0
    ensures r == RawStart(p).(b := [1], c := [2]) && h == HashedStart(p).(m1m2 := Some(Running(p.algo, p.messageA + [1, 2])))
  {
    FlatEnd([p.messageA], [1]);
    FlatOne(p.messageA);
    FlatOne([2]);
    FeedAllTakes(Running(p.algo, []), [p.messageA] + [[1]], 8);
    var h1 := HashedStep(p, HashedStart(p), ONE, 9).0;
    assert [] + (p.messageA + [1]) == p.messageA + [1];
    FeedAllTakes(h1.m1m2.value, [[2]], 9);
    assert p.messageA + [1] + [2] == p.messageA + [1, 2];
    r, h := RawStep(p, RawStep(p, RawStart(p), ONE).0, TWO).0, HashedStep(p, h1, TWO, 9).0;
  }

  /** From empty transcripts: B, C and GET_DIGESTS. The raw build keeps C; the hashed build has no digest. */
  lemma GetDigestsAfterC(p: Info, authenticated: bool)
    requires !p.algo.OtherAlgo?
    ensures var r := RawStep(p, RawStep(p, RawStep(p, RawStart(p), ONE).0, TWO).0, Reset(GetDigests, None, authenticated)).0;
            var h := HashedStep(p, HashedStep(p, HashedStep(p, HashedStart(p), ONE, 9).0, TWO, 9).0,
                                Reset(GetDigests, None, authenticated), 9).0;
            r.b == [] && r.c == [2] && h.m1m2 == None
  {
    var r, h := StartBC(p);
  }

  /** From empty transcripts: a first B message whose seeding fails, and another that is accepted. The digest
      has not seen A. */
  lemma SeedLost(p: Info)
    requires !p.algo.OtherAlgo? && p.messageA != []
    ensures var first := HashedStep(p, HashedStart(p), ONE, 1);
            && first.1 == Err(CryptoError) && StepLosesSeed(p, HashedStart(p), ONE, 1)
            && var r, second := RawStep(p, RawStart(p), ONE), HashedStep(p, first.0, ONE, 9);
               && r.1.Ok? && second.1.Ok?
               && second.0.m1m2 == Some(Running(p.algo, [1])) && !HashesRaw(p, r.0, second.0)
  {
    FlatOne(p.messageA);
    assert [p.messageA][0..] == [p.messageA];
    FeedAllStops(Running(p.algo, []), [p.messageA] + [[1]], 0);
    var run := Running(p.algo, []);
    assert run.fed + Flat(([p.messageA] + [[1]])[..0]) == [];
    var first := HashedStep(p, HashedStart(p), ONE, 1).0;
    assert first.m1m2 == Some(run);
    FlatOne([1]);
    FeedAllTakes(run, [[1]], 9);
    var r := RawStep(p, RawStart(p), ONE);
    assert RawStart(p).b + [1] == [1];
    assert |p.messageA + [1] + []| != 1;
  }

  // Capacities over runs

  /** Every buffer is within its capacity. */
  predicate Bounded(p: Info, r: Raw) {
    && |r.b| <= MaxB(p.certSize) && |r.c| <= MAX_C && |r.m| <= MaxM(p.recordSize)
    && forall i :: 0 <= i < |r.sessions| ==>
         |r.sessions[i].k| <= MAX_K && |r.sessions[i].f| <= MAX_F && |r.sessions[i].m| <= MaxM(p.recordSize)
  }

  lemma StepKeepsBounded(p: Info, r: Raw, op: Op)
    requires |r.sessions| == |p.sessions| && Bounded(p, r)
    ensures Bounded(p, RawStep(p, r, op).0)
  {
  }

  lemma {:induction false} RunKeepsBounded(p: Info, rs: seq<Raw>, hs: seq<Hashed>, ops: seq<Op>, works: seq<nat>, i: nat)
    requires IsRun(p, rs, hs, ops, works) && i <= |ops|
    ensures Bounded(p, rs[i])
    decreases i
  {
    if i > 0 {
      RunKeepsBounded(p, rs, hs, ops, works, i - 1);
      assert Orderly(p, rs[i - 1], hs[i - 1], ops[i - 1], works[i - 1]);
      StepKeepsBounded(p, rs[i - 1], ops[i - 1]);
    }
  }

  /** Over every run, the TH transcript of every session fits the buffer it is assembled in. */
  lemma ThFits(p: Info, rs: seq<Raw>, hs: seq<Hashed>, ops: seq<Op>, works: seq<nat>, i: nat, usePsk: bool, slot: nat, isMutAuth: bool)
    requires IsRun(p, rs, hs, ops, works) && p.Valid() && i < |rs[|ops|].sessions|
    ensures var s := rs[|ops|].sessions[i];
            && |s.k| <= MAX_K && |s.f| <= MAX_F
            && var th := p.TranscriptData(usePsk, slot, isMutAuth, s.k, Some(s.f));
               th.Ok? ==> |th.value| <= MaxTh(p.certSize) == 156 + p.certSize + 2964 + p.certSize + 648
  {
    RunKeepsBounded(p, rs, hs, ops, works, |ops|);
  }

  /** Appending to or resetting M for one session leaves every other session alone, in both builds. */
  lemma MIsPerSession(p: Info, r: Raw, h: Hashed, id: nat, message: bytes, works: nat, j: nat)
    requires |r.sessions| == |h.sessions| == |p.sessions| && j < |p.sessions| && p.Find(id) != Some(j)
    ensures RawAppendM(p, r, Some(id), message).0.sessions[j] == r.sessions[j] && RawAppendM(p, r, Some(id), message).0.m == r.m
    ensures RawResetM(p, r, Some(id)).sessions[j] == r.sessions[j] && RawResetM(p, r, Some(id)).m == r.m
    ensures HashedAppendM(p, h, Some(id), message, works).0.sessions[j] == h.sessions[j] && HashedAppendM(p, h, Some(id), message, works).0.l1l2 == h.l1l2
    ensures HashedResetM(p, h, Some(id)).sessions[j] == h.sessions[j] && HashedResetM(p, h, Some(id)).l1l2 == h.l1l2
  {
  }

  /** The two endpoints: same A, algorithm and hash, and each holds the other's certificate chains. */
  ghost predicate Mirrored(req: Info, rsp: Info, slot: nat) {
    && req.isRequester && !rsp.isRequester
    && req.hash == rsp.hash && req.algo == rsp.algo && req.messageA == rsp.messageA
    && slot < |req.peer| && slot < |rsp.my| && req.peer[slot] == rsp.my[slot]
    && req.localSlot < |req.my| && rsp.peerSlot < |rsp.peer| && req.my[req.localSlot] == rsp.peer[rsp.peerSlot]
  }

  /** Peer agreement: both sides compute the same TH bytes in every case, or both fail. */
  lemma PeersAgreeOnTh(req: Info, rsp: Info, slot: nat, usePsk: bool, isMutAuth: bool, k: bytes, f: Option<bytes>)
    requires usePsk || Mirrored(req, rsp, slot)
    requires req.messageA == rsp.messageA
    ensures var x, y := req.TranscriptData(usePsk, slot, isMutAuth, k, f), rsp.TranscriptData(usePsk, slot, isMutAuth, k, f);
            (x.Ok? <==> y.Ok?) && (x.Ok? ==> x.value == y.value)
  {
  }

  /** A session after a sequence of F messages in the hashed build. */
  function AppendAllF(p: Info, s: SessionInfo, h: HashedSession, messages: seq<bytes>, works: nat): (HashedSession, Outcome<()>) {
    if messages == [] then (h, Ok(()))
    else
      var before := AppendAllF(p, s, h, messages[..|messages| - 1], works);
      if before.1.Ok? then HashedAppendF(p, s, before.0, messages[|messages| - 1], works) else before
  }

  /** The hashed path agrees too: from the same digest, the same F messages, appended as requester on
      one side and as responder on the other, lead to the same digest or fail on both sides. */
  lemma {:induction false} PeersAgreeOnHashedF(req: Info, rsp: Info, slot: nat, s: SessionInfo, h: HashedSession, messages: seq<bytes>, works: nat)
    requires s.usePsk || Mirrored(req, rsp, slot)
    ensures var x, y := AppendAllF(req, s, h, messages, works), AppendAllF(rsp, s, h, messages, works);
            (x.1.Ok? <==> y.1.Ok?) && x.0 == y.0
  {
    if messages != [] {
      PeersAgreeOnHashedF(req, rsp, slot, s, h, messages[..|messages| - 1], works);
    }
  }
}
