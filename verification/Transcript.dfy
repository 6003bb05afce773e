/** Two builds of the transcript API. The raw build keeps buffers B, C, M, K and F and concatenates
    them with A when a hash is wanted; the hashed build keeps running digests that it seeds on first
    use. Message A, the certificate chains and the sessions' set-up are fixed during a run. */
module Transcript {
  import opened Bytes
  import opened HashCtx
  import opened ManagedBuffer

  const VERSION_12: nat := 0x12

  /** A session's set-up: what it was told when it was created. */
  datatype SessionInfo = SessionInfo(id: nat, usePsk: bool, mutAuth: bool, algo: Algo,
                                     messageA: bytes, rspCertHash: Option<bytes>)

  /** The parts of a context that do not change during a run. */
  datatype Info = Info(hash: Hash, isRequester: bool, algo: Algo, version: nat, messageA: bytes,
                       my: seq<Option<bytes>>, peer: seq<Option<bytes>>, localSlot: nat, peerSlot: nat,
                       certSize: nat, recordSize: nat, sessions: seq<SessionInfo>)
  {
    ghost predicate Valid() {
      && |messageA| <= MAX_A
      && |my| == SLOTS && |peer| == SLOTS
      && MAX_HASH_SIZE <= certSize
      && forall r :: |hash(r)| <= MAX_HASH_SIZE
    }

    function HashAll(data: bytes): Option<bytes> {
      if algo.OtherAlgo? then None else Some(hash(Running(algo, data)))
    }

    /** The hash of the chain in a slot. */
    function ChainHash(chains: seq<Option<bytes>>, slot: nat, missing: Status): Outcome<bytes> {
      if slot >= |chains| then Abort
      else
        match chains[slot]
        case None => Err(missing)
        case Some(chain) =>
          match HashAll(chain)
          case None => Err(CryptoError)
          case Some(digest) => Ok(digest)
    }

    /** The responder's chain, as either side holds it. */
    function RspChainHash(slot: nat): Outcome<bytes> {
      if isRequester then ChainHash(peer, slot, InvalidParameter) else ChainHash(my, slot, InvalidStateLocal)
    }

    /** The requester's chain, for mutual authentication. */
    function ReqChainHash(missing: Status): Outcome<bytes> {
      if isRequester then ChainHash(my, localSlot, missing) else ChainHash(peer, peerSlot, missing)
    }

    /** `calc_req_transcript_data` and `calc_rsp_transcript_data`. */
    function TranscriptData(usePsk: bool, slot: nat, isMutAuth: bool, k: bytes, f: Option<bytes>): Outcome<bytes> {
      var rsp :- RspPart(usePsk, slot);
      var req :- ReqPart(usePsk, isMutAuth);
      Ok(messageA + rsp + k + req + (if f.Some? then f.value else []))
    }

    function RspPart(usePsk: bool, slot: nat): Outcome<bytes> {
      if usePsk then Ok([]) else RspChainHash(slot)
    }

    function ReqPart(usePsk: bool, isMutAuth: bool): Outcome<bytes> {
      if usePsk || !isMutAuth then Ok([]) else ReqChainHash(InvalidParameter)
    }

    /** What a measurement transcript starts with. */
    function L1L2Prefix(): bytes {
      if version >= VERSION_12 then messageA else []
    }

    function L1L2Parts(): seq<bytes> {
      if version >= VERSION_12 then [messageA] else []
    }

    /** The index of the first session with an id. */
    function Find(id: nat, from: nat := 0): (r: Option<nat>)
      requires from <= |sessions|
      ensures r.Some? ==> from <= r.value < |sessions| && sessions[r.value].id == id && forall j :: from <= j < r.value ==> sessions[j].id != id
      ensures r.None? ==> forall j :: from <= j < |sessions| ==> sessions[j].id != id
      decreases |sessions| - from
    {
      if from == |sessions| then None
      else if sessions[from].id == id then Some(from)
      else Find(id, from + 1)
    }
  }

  datatype RawSession = RawSession(k: bytes, f: bytes, m: bytes)

  datatype Raw = Raw(b: bytes, c: bytes, m: bytes, sessions: seq<RawSession>)

  datatype HashedSession = HashedSession(th: Option<Running>, fStarted: bool, l1l2: Option<Running>)

  datatype Hashed = Hashed(m1m2: Option<Running>, l1l2: Option<Running>, sessions: seq<HashedSession>)

  /** The requests that reset transcripts. */
  datatype Opcode =
    | GetMeasurements
    | KeyExchange
    | Finish
    | PskExchange
    | PskFinish
    | KeyUpdate
    | Heartbeat
    | EndSession
    | GetDigests
    | OtherRequest

  datatype Op =
    | AppendB(message: bytes)
    | AppendC(message: bytes)
    | AppendM(session: Option<nat>, message: bytes)
    | AppendK(id: nat, message: bytes)
    | AppendF(id: nat, message: bytes)
    | Reset(opcode: Opcode, session: Option<nat>, authenticated: bool)

  // The raw build

  function Appended(buffer: bytes, message: bytes, capacity: nat): Outcome<bytes> {
    if |buffer| + |message| <= capacity then Ok(buffer + message) else Err(BufferFull)
  }

  function RawAppendM(p: Info, r: Raw, session: Option<nat>, message: bytes): (Raw, Outcome<()>)
    requires |r.sessions| == |p.sessions|
  {
    match session
    case None =>
      var m := Appended(r.m, message, MaxM(p.recordSize));
      if m.Ok? then (r.(m := m.value), Ok(())) else (r, Err(BufferFull))
    case Some(id) =>
      match p.Find(id)
      case None => (r, Err(InvalidStateLocal))
      case Some(i) =>
        var m := Appended(r.sessions[i].m, message, MaxM(p.recordSize));
        if m.Ok? then (r.(sessions := r.sessions[i := r.sessions[i].(m := m.value)]), Ok(())) else (r, Err(BufferFull))
  }

  function RawResetM(p: Info, r: Raw, session: Option<nat>): Raw
    requires |r.sessions| == |p.sessions|
  {
    match session
    case None => r.(m := [])
    case Some(id) =>
      match p.Find(id)
      case None => r
      case Some(i) => r.(sessions := r.sessions[i := r.sessions[i].(m := [])])
  }

  function RawReset(p: Info, r: Raw, opcode: Opcode, session: Option<nat>, authenticated: bool): Raw
    requires |r.sessions| == |p.sessions|
  {
    var r' := if opcode.GetMeasurements? then r else RawResetM(p, r, session);
    match opcode
    case GetMeasurements | KeyExchange | Finish | PskExchange | PskFinish | KeyUpdate | Heartbeat | EndSession =>
      if authenticated then r' else r'.(b := [], c := [])
    case GetDigests => r'.(b := [])
    case OtherRequest => r'
  }

  function RawStep(p: Info, r: Raw, op: Op): (Raw, Outcome<()>)
    requires |r.sessions| == |p.sessions|
  {
    match op
    case AppendB(message) =>
      var b := Appended(r.b, message, MaxB(p.certSize));
      if b.Ok? then (r.(b := b.value), Ok(())) else (r, Err(BufferFull))
    case AppendC(message) =>
      var c := Appended(r.c, message, MAX_C);
      if c.Ok? then (r.(c := c.value), Ok(())) else (r, Err(BufferFull))
    case AppendM(session, message) => RawAppendM(p, r, session, message)
    case AppendK(id, message) =>
      (match p.Find(id)
       case None => (r, Abort)
       case Some(i) =>
         var k := Appended(r.sessions[i].k, message, MAX_K);
         if k.Ok? then (r.(sessions := r.sessions[i := r.sessions[i].(k := k.value)]), Ok(())) else (r, Err(BufferFull)))
    case AppendF(id, message) =>
      (match p.Find(id)
       case None => (r, Abort)
       case Some(i) =>
         var f := Appended(r.sessions[i].f, message, MAX_F);
         if f.Ok? then (r.(sessions := r.sessions[i := r.sessions[i].(f := f.value)]), Ok(())) else (r, Err(BufferFull)))
    case Reset(opcode, session, authenticated) => (RawReset(p, r, opcode, session, authenticated), Ok(()))
  }

  // The hashed build

  /** A digest after `parts`, if the backend takes them; it takes `works` more and then fails. */
  function FeedAll(run: Running, parts: seq<bytes>, works: nat): (Running, bool)
    decreases |parts|
  {
    if parts == [] then (run, true)
    else if works == 0 then (run, false)
    else FeedAll(run.(fed := run.fed + parts[0]), parts[1..], works - 1)
  }

  /** A running digest after `message`. When there is none yet it is made and fed `seed` first; `works` is
      how many calls of the backend succeed. */
  function Fed(d: Option<Running>, algo: Algo, seed: seq<bytes>, message: bytes, works: nat, noDigest: Status)
    : (Option<Running>, Outcome<()>)
  {
    match d
    case None =>
      if algo.OtherAlgo? || works == 0 then (None, Err(noDigest))
      else
        var f := FeedAll(Running(algo, []), seed + [message], works - 1);
        (Some(f.0), if f.1 then Ok(()) else Err(CryptoError))
    case Some(run) =>
      var f := FeedAll(run, [message], works);
      (Some(f.0), if f.1 then Ok(()) else Err(CryptoError))
  }

  function HashedAppendM(p: Info, h: Hashed, session: Option<nat>, message: bytes, works: nat): (Hashed, Outcome<()>)
    requires |h.sessions| == |p.sessions|
  {
    match session
    case None =>
      var d := Fed(h.l1l2, p.algo, p.L1L2Parts(), message, works, CryptoError);
      (h.(l1l2 := d.0), d.1)
    case Some(id) =>
      match p.Find(id)
      case None => (h, Err(InvalidStateLocal))
      case Some(i) =>
        var d := Fed(h.sessions[i].l1l2, p.algo, p.L1L2Parts(), message, works, CryptoError);
        (h.(sessions := h.sessions[i := h.sessions[i].(l1l2 := d.0)]), d.1)
  }

  function HashedResetM(p: Info, h: Hashed, session: Option<nat>): Hashed
    requires |h.sessions| == |p.sessions|
  {
    match session
    case None => h.(l1l2 := None)
    case Some(id) =>
      match p.Find(id)
      case None => h
      case Some(i) => h.(sessions := h.sessions[i := h.sessions[i].(l1l2 := None)])
  }

  function HashedReset(p: Info, h: Hashed, opcode: Opcode, session: Option<nat>, authenticated: bool): Hashed
    requires |h.sessions| == |p.sessions|
  {
    var h' := if opcode.GetMeasurements? then h else HashedResetM(p, h, session);
    match opcode
    case GetMeasurements | KeyExchange | Finish | PskExchange | PskFinish | KeyUpdate | Heartbeat | EndSession =>
      if authenticated then h' else h'.(m1m2 := None)
    case GetDigests => h'.(m1m2 := None)
    case OtherRequest => h'
  }

  /** What seeds the TH digest of a session. */
  function ThParts(s: SessionInfo): seq<bytes> {
    [s.messageA] + if s.rspCertHash.Some? then [s.rspCertHash.value] else []
  }

  /** The requester's certificate hash, fed before the first F message under mutual authentication. */
  function MutAuthParts(p: Info, s: SessionInfo): Outcome<seq<bytes>> {
    if !s.usePsk && s.mutAuth then
      var digest :- p.ReqChainHash(InvalidStateLocal);
      Ok([digest])
    else Ok([])
  }

  function HashedAppendF(p: Info, s: SessionInfo, h: HashedSession, message: bytes, works: nat): (HashedSession, Outcome<()>) {
    match h.th
    case None => (h, Err(InvalidStateLocal))
    case Some(run) =>
      match if h.fStarted then Ok([]) else MutAuthParts(p, s)
      case Err(status) => (h, Err(status))
      case Abort => (h, Abort)
      case Ok(parts) =>
        var first := FeedAll(run, parts, works);
        if !first.1 then (h.(th := Some(first.0)), Err(CryptoError))
        else
          var f := FeedAll(first.0, [message], if |parts| <= works then works - |parts| else 0);
          (h.(th := Some(f.0), fStarted := true), if f.1 then Ok(()) else Err(CryptoError))
  }

  function HashedStep(p: Info, h: Hashed, op: Op, works: nat): (Hashed, Outcome<()>)
    requires |h.sessions| == |p.sessions|
  {
    match op
    case AppendB(message) =>
      var d := Fed(h.m1m2, p.algo, [p.messageA], message, works, InvalidStateLocal);
      (h.(m1m2 := d.0), d.1)
    case AppendC(message) =>
      var d := Fed(h.m1m2, p.algo, [p.messageA], message, works, CryptoError);
      (h.(m1m2 := d.0), d.1)
    case AppendM(session, message) => HashedAppendM(p, h, session, message, works)
    case AppendK(id, message) =>
      (match p.Find(id)
       case None => (h, Abort)
       case Some(i) =>
         var d := Fed(h.sessions[i].th, p.sessions[i].algo, ThParts(p.sessions[i]), message, works, CryptoError);
         (h.(sessions := h.sessions[i := h.sessions[i].(th := d.0)]), d.1))
    case AppendF(id, message) =>
      (match p.Find(id)
       case None => (h, Abort)
       case Some(i) =>
         var s := HashedAppendF(p, p.sessions[i], h.sessions[i], message, works);
         (h.(sessions := h.sessions[i := s.0]), s.1))
    case Reset(opcode, session, authenticated) => (HashedReset(p, h, opcode, session, authenticated), Ok(()))
  }

  // What the definitions mean

  /** A hash of the chain in a slot, for a TH transcript. */
  function ChainPart(p: Info, chains: seq<Option<bytes>>, slot: nat, missing: Status): Outcome<bytes> {
    if slot >= |chains| then Abort
    else if chains[slot] == None then Err(missing)
    else if p.algo == OtherAlgo then Err(CryptoError)
    else Ok(p.hash(Running(p.algo, chains[slot].value)))
  }

  /** TH: A, the hash of the responder's chain, K, under mutual authentication the hash of the requester's
      chain, and F. With a pre-shared key there are no chains. The requester holds the responder's chains as
      its peer's and its own as its own; the responder the other way round. */
  predicate IsTranscript(p: Info, usePsk: bool, slot: nat, isMutAuth: bool, k: bytes, f: Option<bytes>, th: Outcome<bytes>) {
    var rsp := if p.isRequester then ChainPart(p, p.peer, slot, InvalidParameter) else ChainPart(p, p.my, slot, InvalidStateLocal);
    var req := if p.isRequester then ChainPart(p, p.my, p.localSlot, InvalidParameter) else ChainPart(p, p.peer, p.peerSlot, InvalidParameter);
    var last := if f.Some? then f.value else [];
    if usePsk then th == Ok(p.messageA + k + last)
    else if !rsp.Ok? then th == rsp
    else if !isMutAuth then th == Ok(p.messageA + rsp.value + k + last)
    else if !req.Ok? then th == req
    else th == Ok(p.messageA + rsp.value + k + req.value + last)
  }

  lemma TranscriptMeans(p: Info, usePsk: bool, slot: nat, isMutAuth: bool, k: bytes, f: Option<bytes>)
    ensures IsTranscript(p, usePsk, slot, isMutAuth, k, f, p.TranscriptData(usePsk, slot, isMutAuth, k, f))
  {
    var last: bytes := if f.Some? then f.value else [];
    assert p.messageA + [] + k + [] + last == p.messageA + k + last;
    var rsp := p.RspPart(usePsk, slot);
    if rsp.Ok? {
      assert p.messageA + rsp.value + k + [] + last == p.messageA + rsp.value + k + last;
    }
  }

  /** What each request empties: all but GET_MEASUREMENTS the M of the context or of the named session;
      GET_DIGESTS B; GET_MEASUREMENTS and the requests of a session B and C, until the connection is
      authenticated. In the hashed build, the digests that hold them. */
  lemma ResetMeans(p: Info, r: Raw, h: Hashed, opcode: Opcode, session: Option<nat>, authenticated: bool)
    requires |r.sessions| == |h.sessions| == |p.sessions|
    ensures var r', h' := RawReset(p, r, opcode, session, authenticated), HashedReset(p, h, opcode, session, authenticated);
            var both := opcode !in {GetDigests, OtherRequest} && !authenticated;
            && r'.b == (if both || opcode == GetDigests then [] else r.b)
            && r'.c == (if both then [] else r.c)
            && h'.m1m2 == (if both || opcode == GetDigests then None else h.m1m2)
            && r'.m == (if opcode != GetMeasurements && session == None then [] else r.m)
            && h'.l1l2 == (if opcode != GetMeasurements && session == None then None else h.l1l2)
            && |r'.sessions| == |h'.sessions| == |p.sessions|
    ensures var r', h' := RawReset(p, r, opcode, session, authenticated), HashedReset(p, h, opcode, session, authenticated);
            forall j: nat :: j < |p.sessions| ==>
              if opcode != GetMeasurements && session.Some? && p.Find(session.value) == Some(j)
              then r'.sessions[j] == r.sessions[j].(m := []) && h'.sessions[j] == h.sessions[j].(l1l2 := None)
              else r'.sessions[j] == r.sessions[j] && h'.sessions[j] == h.sessions[j]
  {
  }

  /** How much each buffer takes. */
  lemma AppendFitsIff(p: Info, r: Raw, message: bytes, id: nat)
    requires |r.sessions| == |p.sessions|
    ensures RawStep(p, r, AppendB(message)).1.Ok? <==> |r.b| + |message| <= 24 + 64 * 8 + p.certSize
    ensures RawStep(p, r, AppendC(message)).1.Ok? <==> |r.c| + |message| <= 78 + 64 * 2 + 512 + 1024
    ensures RawStep(p, r, AppendM(None, message)).1.Ok? <==> |r.m| + |message| <= 47 + 32 + p.recordSize + 512 + 1024
    ensures p.Find(id).Some? ==>
              var s := r.sessions[p.Find(id).value];
              && (RawStep(p, r, AppendM(Some(id), message)).1.Ok? <==> |s.m| + |message| <= 47 + 32 + p.recordSize + 512 + 1024)
              && (RawStep(p, r, AppendK(id, message)).1.Ok? <==> |s.k| + |message| <= 84 + 96 * 2 + 64 * 2 + 512 + 1024 * 2)
              && (RawStep(p, r, AppendF(id, message)).1.Ok? <==> |s.f| + |message| <= 8 + 64 * 2 + 512)
  {
  }

  /** How an append is refused: a full buffer is an error; M of an unknown session is one too, K and F panic; in
      the hashed build, a digest that cannot be made is a local-state error for B and a crypto error otherwise,
      and F needs a digest that K made. */
  lemma RefusalsMean(p: Info, r: Raw, h: Hashed, message: bytes, id: nat)
    requires |r.sessions| == |h.sessions| == |p.sessions|
    ensures RawStep(p, r, AppendB(message)).1.Ok? || RawStep(p, r, AppendB(message)) == (r, Err(BufferFull))
    ensures RawStep(p, r, AppendC(message)).1.Ok? || RawStep(p, r, AppendC(message)) == (r, Err(BufferFull))
    ensures p.Find(id).None? ==>
              && RawStep(p, r, AppendM(Some(id), message)) == (r, Err(InvalidStateLocal)) && RawStep(p, r, AppendK(id, message)) == (r, Abort)
              && HashedStep(p, h, AppendM(Some(id), message), 9) == (h, Err(InvalidStateLocal)) && HashedStep(p, h, AppendK(id, message), 9) == (h, Abort)
              && RawStep(p, r, AppendF(id, message)) == (r, Abort) && HashedStep(p, h, AppendF(id, message), 9) == (h, Abort)
    ensures h.m1m2 == None ==>
              && HashedStep(p, h, AppendB(message), 0) == (h, Err(InvalidStateLocal)) && HashedStep(p, h, AppendC(message), 0) == (h, Err(CryptoError))
    ensures p.Find(id).Some? ==>
              var i := p.Find(id).value;
              && (RawStep(p, r, AppendK(id, message)).1.Ok? || RawStep(p, r, AppendK(id, message)) == (r, Err(BufferFull)))
              && (RawStep(p, r, AppendF(id, message)).1.Ok? || RawStep(p, r, AppendF(id, message)) == (r, Err(BufferFull)))
              && (h.sessions[i].th == None ==>
                    && HashedStep(p, h, AppendK(id, message), 0) == (h, Err(CryptoError))
                    && HashedStep(p, h, AppendF(id, message), 9) == (h, Err(InvalidStateLocal)))
  {
    if p.Find(id).Some? {
      var i := p.Find(id).value;
      assert h.sessions[i := h.sessions[i]] == h.sessions;
    }
  }

  /** The largest negotiated sizes: of a hash, a signature, a key exchange value and opaque data. */
  predicate Sizes(h: nat, s: nat, d: nat, o: nat) {
    h <= 64 && s <= 512 && d <= 96 && o <= 1024
  }

  /** The two messages of a CHALLENGE, of a measurement, of a KEY_EXCHANGE and of a FINISH, of the sizes
      DSP0274 gives them, fit their empty buffers. */
  lemma ExchangesFit(p: Info, r: Raw, h: nat, s: nat, d: nat, o: nat, o': nat, record: nat, request: bytes, response: bytes, id: nat)
    requires |r.sessions| == |p.sessions| && Sizes(h, s, d, o) && Sizes(h, s, d, o') && record <= p.recordSize
    ensures r.c == [] && |request| == 36 && |response| == 38 + 2 * h + o + s ==> Fit(p, r, AppendC(request), AppendC(response))
    ensures r.m == [] && |request| == 37 && |response| == 42 + record + o + s ==> Fit(p, r, AppendM(None, request), AppendM(None, response))
    ensures p.Find(id).Some? ==>
              var t := r.sessions[p.Find(id).value];
              && (t.k == [] && |request| == 42 + d + o && |response| == 42 + d + 2 * h + o' + s ==> Fit(p, r, AppendK(id, request), AppendK(id, response)))
              && (t.f == [] && |request| == 4 + s + h && |response| == 4 + h ==> Fit(p, r, AppendF(id, request), AppendF(id, response)))
  {
  }

  predicate Fit(p: Info, r: Raw, first: Op, second: Op)
    requires |r.sessions| == |p.sessions|
  {
    && RawStep(p, r, first).1.Ok?
    && |RawStep(p, r, first).0.sessions| == |p.sessions| && RawStep(p, RawStep(p, r, first).0, second).1.Ok?
  }

  /** GET_DIGESTS with all digests, and then a certificate chain of any size allowed: it fits B if and only if
      it is not cut into too many portions, each of which costs the headers of a request and a response. */
  lemma CertificatesFitIff(p: Info, r: Raw, h: nat, slots: nat, portions: nat, chain: nat, b: bytes, last: bytes)
    requires |r.sessions| == |p.sessions| && h <= 64 && slots <= 8 && portions >= 1
    requires r.b == b && |b| + |last| == 4 + 4 + h * slots + 16 * portions + chain
    ensures RawStep(p, r, AppendB(last)).1.Ok? <==> 16 * (portions - 1) + chain <= p.certSize + (64 * 8 - h * slots)
  {
  }

  lemma Regroup(a: bytes, b: bytes, c: bytes)
    ensures (a + b) + c == a + (b + c)
  {
  }

  /** A backend that fails leaves the digest with the parts before. */
  lemma {:induction false} FeedAllStops(run: Running, parts: seq<bytes>, works: nat)
    requires works < |parts|
    ensures FeedAll(run, parts, works) == (run.(fed := run.fed + Flat(parts[..works])), false)
    decreases |parts|
  {
    if works == 0 {
      assert run.fed + [] == run.fed;
    } else {
      var next := run.(fed := run.fed + parts[0]);
      FeedAllStops(next, parts[1..], works - 1);
      assert parts[..works][1..] == parts[1..][..works - 1];
      Regroup(run.fed, parts[0], Flat(parts[1..][..works - 1]));
    }
  }

  lemma {:induction false} FeedAllTakes(run: Running, parts: seq<bytes>, works: nat)
    ensures FeedAll(run, parts, works).1 <==> |parts| <= works
    ensures |parts| <= works ==> FeedAll(run, parts, works).0 == run.(fed := run.fed + Flat(parts))
    decreases |parts|
  {
    if parts == [] {
      assert run.fed + [] == run.fed;
    } else if works > 0 {
      var next := run.(fed := run.fed + parts[0]);
      FeedAllTakes(next, parts[1..], works - 1);
      Regroup(run.fed, parts[0], Flat(parts[1..]));
    }
  }
}
