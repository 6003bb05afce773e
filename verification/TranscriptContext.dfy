/** The transcript methods of `SpdmContext`, in both builds, updating their state in place. */
module TranscriptContext {
  import opened Bytes
  import opened HashCtx
  import opened ManagedBuffer
  import opened Transcript
  import opened TranscriptRefinement

  /** `get_session_via_id` over the sessions of a context. */
  method FindSession(p: Info, id: nat) returns (r: Option<nat>)
    ensures r == p.Find(id)
  {
    var i := 0;
    while i < |p.sessions|
      invariant i <= |p.sessions| && p.Find(id) == p.Find(id, i)
    {
      if p.sessions[i].id == id {
        return Some(i);
      }
      i := i + 1;
    }
    r := None;
  }

  // The places of the raw build's buffers: three of the context, three of each session.

  const B: nat := 0
  const C: nat := 1
  const M: nat := 2

  function K(i: nat): nat {
    3 + 3 * i
  }

  function F(i: nat): nat {
    4 + 3 * i
  }

  function SessionM(i: nat): nat {
    5 + 3 * i
  }

  /** The capacity of the buffer at a place. */
  function Capacity(p: Info, j: nat): nat {
    if j == B then MaxB(p.certSize)
    else if j == C then MAX_C
    else if j == M || j % 3 == 2 then MaxM(p.recordSize)
    else if j % 3 == 0 then MAX_K
    else MAX_F
  }

  lemma SessionCapacities(p: Info, i: nat)
    ensures Capacity(p, K(i)) == MAX_K && Capacity(p, F(i)) == MAX_F && Capacity(p, SessionM(i)) == MaxM(p.recordSize)
  {
  }

  /** The transcripts that buffers with these contents hold. */
  function RawOf(contents: seq<bytes>, n: nat): (r: Raw)
    requires |contents| == 3 + 3 * n
    ensures |r.sessions| == n
  {
    Raw(contents[B], contents[C], contents[M],
        seq(n, i requires 0 <= i < n => RawSession(contents[K(i)], contents[F(i)], contents[SessionM(i)])))
  }

  lemma ContextPart(contents: seq<bytes>, n: nat, j: nat, x: bytes)
    requires |contents| == 3 + 3 * n && j < 3
    ensures var r, r' := RawOf(contents, n), RawOf(contents[j := x], n);
            r' == if j == B then r.(b := x) else if j == C then r.(c := x) else r.(m := x)
  {
    var r, r' := RawOf(contents, n), RawOf(contents[j := x], n);
    assert r'.sessions == r.sessions;
  }

  function WithK(r: Raw, i: nat, x: bytes): Raw
    requires i < |r.sessions|
  {
    r.(sessions := r.sessions[i := r.sessions[i].(k := x)])
  }

  function WithF(r: Raw, i: nat, x: bytes): Raw
    requires i < |r.sessions|
  {
    r.(sessions := r.sessions[i := r.sessions[i].(f := x)])
  }

  function WithM(r: Raw, i: nat, x: bytes): Raw
    requires i < |r.sessions|
  {
    r.(sessions := r.sessions[i := r.sessions[i].(m := x)])
  }

  lemma KPart(contents: seq<bytes>, n: nat, i: nat, x: bytes)
    requires |contents| == 3 + 3 * n && i < n
    ensures RawOf(contents[K(i) := x], n) == WithK(RawOf(contents, n), i, x)
  {
    assert RawOf(contents[K(i) := x], n).sessions == WithK(RawOf(contents, n), i, x).sessions;
  }

  lemma FPart(contents: seq<bytes>, n: nat, i: nat, x: bytes)
    requires |contents| == 3 + 3 * n && i < n
    ensures RawOf(contents[F(i) := x], n) == WithF(RawOf(contents, n), i, x)
  {
    assert RawOf(contents[F(i) := x], n).sessions == WithF(RawOf(contents, n), i, x).sessions;
  }

  lemma MPart(contents: seq<bytes>, n: nat, i: nat, x: bytes)
    requires |contents| == 3 + 3 * n && i < n
    ensures RawOf(contents[SessionM(i) := x], n) == WithM(RawOf(contents, n), i, x)
  {
    assert RawOf(contents[SessionM(i) := x], n).sessions == WithM(RawOf(contents, n), i, x).sessions;
  }

  lemma EmptyIsStart(p: Info, contents: seq<bytes>)
    requires |contents| == 3 + 3 * |p.sessions| && forall j :: 0 <= j < |contents| ==> contents[j] == []
    ensures RawOf(contents, |p.sessions|) == RawStart(p)
  {
    assert RawOf(contents, |p.sessions|).sessions == RawStart(p).sessions;
  }

  lemma AppendKAt(p: Info, r: Raw, id: nat, message: bytes, i: nat)
    requires |r.sessions| == |p.sessions| && p.Find(id) == Some(i)
    ensures RawStep(p, r, AppendK(id, message))
         == if |r.sessions[i].k| + |message| <= MAX_K then (WithK(r, i, r.sessions[i].k + message), Ok(()))
            else (r, Err(BufferFull))
  {
  }

  lemma AppendFAt(p: Info, r: Raw, id: nat, message: bytes, i: nat)
    requires |r.sessions| == |p.sessions| && p.Find(id) == Some(i)
    ensures RawStep(p, r, AppendF(id, message))
         == if |r.sessions[i].f| + |message| <= MAX_F then (WithF(r, i, r.sessions[i].f + message), Ok(()))
            else (r, Err(BufferFull))
  {
  }

  /** The raw build, with its fixed-size buffers. */
  class RawContext {
    const p: Info
    const buffers: seq<Buffer>

    ghost function Arrays(): set<object> {
      set j | 0 <= j < |buffers| :: buffers[j].data as object
    }

    /** The buffers are as many and as large as they should be, and no two share anything. */
    ghost predicate Valid()
      reads buffers
    {
      && |buffers| == 3 + 3 * |p.sessions|
      && (forall j :: 0 <= j < |buffers| ==> buffers[j].Valid() && buffers[j].data.Length == Capacity(p, j))
      && forall i, j :: 0 <= i < j < |buffers| ==> buffers[i] != buffers[j] && buffers[i].data != buffers[j].data
    }

    ghost function Contents(): (c: seq<bytes>)
      requires Valid()
      reads buffers, Arrays()
      ensures |c| == |buffers|
    {
      seq(|buffers|, j requires 0 <= j < |buffers| && Valid() reads buffers, Arrays() => buffers[j].Contents())
    }

    ghost function View(): Raw
      requires Valid()
      reads buffers, Arrays()
    {
      RawOf(Contents(), |p.sessions|)
    }

    constructor (p: Info)
      ensures Valid() && this.p == p && View() == RawStart(p)
      ensures fresh(buffers) && forall j :: 0 <= j < |buffers| ==> fresh(buffers[j].data)
    {
      var made: seq<Buffer> := [];
      while |made| < 3 + 3 * |p.sessions|
        invariant |made| <= 3 + 3 * |p.sessions|
        invariant forall j :: 0 <= j < |made| ==>
                    && fresh(made[j]) && fresh(made[j].data) && made[j].Valid()
                    && made[j].data.Length == Capacity(p, j) && made[j].Contents() == []
        invariant forall i, j :: 0 <= i < j < |made| ==> made[i] != made[j] && made[i].data != made[j].data
      {
        var next := new Buffer(Capacity(p, |made|));
        made := made + [next];
      }
      this.p := p;
      buffers := made;
      new;
      EmptyIsStart(p, Contents());
    }

    /** `append_message` on one buffer, with the full buffer turned into an error. */
    method AppendAt(j: nat, message: bytes) returns (r: Outcome<()>)
      requires Valid() && j < |buffers|
      modifies buffers[j], buffers[j].data
      ensures Valid()
      ensures if |old(Contents())[j]| + |message| <= Capacity(p, j)
              then r == Ok(()) && Contents() == old(Contents())[j := old(Contents())[j] + message]
              else r == Err(BufferFull) && Contents() == old(Contents())
    {
      var written := buffers[j].AppendMessage(message);
      r := if written.Some? then Ok(()) else Err(BufferFull);
      assert forall i :: 0 <= i < |buffers| && i != j ==> buffers[i].Contents() == old(buffers[i].Contents());
    }

    method ResetAt(j: nat)
      requires Valid() && j < |buffers|
      modifies buffers[j]
      ensures Valid() && Contents() == old(Contents())[j := []]
    {
      buffers[j].ResetMessage();
      assert forall i :: 0 <= i < |buffers| && i != j ==> buffers[i].Contents() == old(buffers[i].Contents());
    }

    method AppendMessageB(message: bytes) returns (r: Outcome<()>)
      requires Valid()
      modifies buffers, Arrays()
      ensures Valid() && (View(), r) == RawStep(p, old(View()), AppendB(message))
    {
      ghost var before := Contents();
      r := AppendAt(B, message);
      ContextPart(before, |p.sessions|, B, before[B] + message);
    }

    method AppendMessageC(message: bytes) returns (r: Outcome<()>)
      requires Valid()
      modifies buffers, Arrays()
      ensures Valid() && (View(), r) == RawStep(p, old(View()), AppendC(message))
    {
      ghost var before := Contents();
      r := AppendAt(C, message);
      ContextPart(before, |p.sessions|, C, before[C] + message);
    }

    method AppendToM(i: nat, message: bytes) returns (r: Outcome<()>)
      requires Valid() && i < |p.sessions|
      modifies buffers, Arrays()
      ensures Valid()
      ensures var oldM := old(View()).sessions[i].m;
              if |oldM| + |message| <= MaxM(p.recordSize) then r == Ok(()) && View() == WithM(old(View()), i, oldM + message)
              else r == Err(BufferFull) && View() == old(View())
    {
      ghost var before := Contents();
      SessionCapacities(p, i);
      r := AppendAt(SessionM(i), message);
      MPart(before, |p.sessions|, i, before[SessionM(i)] + message);
    }

    method AppendToK(i: nat, message: bytes) returns (r: Outcome<()>)
      requires Valid() && i < |p.sessions|
      modifies buffers, Arrays()
      ensures Valid()
      ensures var oldK := old(View()).sessions[i].k;
              if |oldK| + |message| <= MAX_K then r == Ok(()) && View() == WithK(old(View()), i, oldK + message)
              else r == Err(BufferFull) && View() == old(View())
    {
      ghost var before := Contents();
      SessionCapacities(p, i);
      r := AppendAt(K(i), message);
      KPart(before, |p.sessions|, i, before[K(i)] + message);
    }

    method AppendToF(i: nat, message: bytes) returns (r: Outcome<()>)
      requires Valid() && i < |p.sessions|
      modifies buffers, Arrays()
      ensures Valid()
      ensures var oldF := old(View()).sessions[i].f;
              if |oldF| + |message| <= MAX_F then r == Ok(()) && View() == WithF(old(View()), i, oldF + message)
              else r == Err(BufferFull) && View() == old(View())
    {
      ghost var before := Contents();
      SessionCapacities(p, i);
      r := AppendAt(F(i), message);
      FPart(before, |p.sessions|, i, before[F(i)] + message);
    }

    method AppendMessageM(session: Option<nat>, message: bytes) returns (r: Outcome<()>)
      requires Valid()
      modifies buffers, Arrays()
      ensures Valid() && (View(), r) == RawStep(p, old(View()), AppendM(session, message))
    {
      if session.None? {
        ghost var before := Contents();
        r := AppendAt(M, message);
        ContextPart(before, |p.sessions|, M, before[M] + message);
      } else {
        var found := FindSession(p, session.value);
        if found.None? {
          return Err(InvalidStateLocal);
        }
        r := AppendToM(found.value, message);
      }
    }

    method AppendMessageK(id: nat, message: bytes) returns (r: Outcome<()>)
      requires Valid()
      modifies buffers, Arrays()
      ensures Valid() && (View(), r) == RawStep(p, old(View()), AppendK(id, message))
    {
      var found := FindSession(p, id);
      if found.None? {
        return Abort;
      }
      AppendKAt(p, View(), id, message, found.value);
      r := AppendToK(found.value, message);
    }

    method AppendMessageF(id: nat, message: bytes) returns (r: Outcome<()>)
      requires Valid()
      modifies buffers, Arrays()
      ensures Valid() && (View(), r) == RawStep(p, old(View()), AppendF(id, message))
    {
      var found := FindSession(p, id);
      if found.None? {
        return Abort;
      }
      AppendFAt(p, View(), id, message, found.value);
      r := AppendToF(found.value, message);
    }

    method ResetMessageM(session: Option<nat>)
      requires Valid()
      modifies buffers
      ensures Valid() && View() == RawResetM(p, old(View()), session)
    {
      ghost var before := Contents();
      if session.None? {
        ResetAt(M);
        ContextPart(before, |p.sessions|, M, []);
      } else {
        var found := FindSession(p, session.value);
        if found.Some? {
          ResetAt(SessionM(found.value));
          MPart(before, |p.sessions|, found.value, []);
        }
      }
    }

    method ResetB()
      requires Valid()
      modifies buffers
      ensures Valid() && View() == old(View()).(b := [])
    {
      ghost var before := Contents();
      ResetAt(B);
      ContextPart(before, |p.sessions|, B, []);
    }

    method ResetC()
      requires Valid()
      modifies buffers
      ensures Valid() && View() == old(View()).(c := [])
    {
      ghost var before := Contents();
      ResetAt(C);
      ContextPart(before, |p.sessions|, C, []);
    }

    method ResetBufferViaRequestCode(opcode: Opcode, session: Option<nat>, authenticated: bool)
      requires Valid()
      modifies buffers
      ensures Valid() && View() == RawReset(p, old(View()), opcode, session, authenticated)
    {
      if opcode != GetMeasurements {
        ResetMessageM(session);
      }
      match opcode
      case GetMeasurements | KeyExchange | Finish | PskExchange | PskFinish | KeyUpdate | Heartbeat | EndSession =>
        if !authenticated {
          ResetB();
          ResetC();
        }
      case GetDigests =>
        ResetB();
      case OtherRequest =>
    }

    /** Appends one part of a transcript, if there is one. */
    method AppendPart(message: Buffer, present: bool, part: Outcome<bytes>) returns (r: Outcome<()>)
      requires message.Valid() && (!present ==> part == Ok([]))
      requires part.Ok? ==> |message.Contents()| + |part.value| <= message.data.Length
      modifies message, message.data
      ensures message.Valid()
      ensures part.Ok? ==> r == Ok(()) && message.Contents() == old(message.Contents()) + part.value
      ensures !part.Ok? ==> r == part.PropagateFailure()
    {
      if present {
        if part.IsFailure() {
          return part.PropagateFailure();
        }
        var appended := message.AppendMessage(part.value);
        if appended.None? {
          return Err(BufferFull);
        }
      }
      r := Ok(());
    }

    /** Assembling TH of session `i`, with or without F, in its fixed buffer never reports a full buffer. */
    method CalcTranscriptData(usePsk: bool, slot: nat, isMutAuth: bool, i: nat, withF: bool) returns (r: Outcome<bytes>)
      requires Valid() && p.Valid() && i < |p.sessions|
      ensures var s := View().sessions[i];
              && r == p.TranscriptData(usePsk, slot, isMutAuth, s.k, if withF then Some(s.f) else None)
              && IsTranscript(p, usePsk, slot, isMutAuth, s.k, if withF then Some(s.f) else None, r)
    {
      var k, f := buffers[K(i)], buffers[F(i)];
      assert k.Contents() == View().sessions[i].k && f.Contents() == View().sessions[i].f;
      r := Assemble(usePsk, slot, isMutAuth, k.data[..k.used], if withF then Some(f.data[..f.used]) else None);
      TranscriptMeans(p, usePsk, slot, isMutAuth, k.Contents(), if withF then Some(f.Contents()) else None);
    }

    method Assemble(usePsk: bool, slot: nat, isMutAuth: bool, k: bytes, f: Option<bytes>) returns (r: Outcome<bytes>)
      requires p.Valid() && |k| <= MAX_K && (f.Some? ==> |f.value| <= MAX_F)
      ensures r == p.TranscriptData(usePsk, slot, isMutAuth, k, f)
    {
      PartsFit(p, usePsk, slot, isMutAuth);
      var message := new Buffer(MaxTh(p.certSize));
      var ok := AppendPart(message, true, Ok(p.messageA));
      assert message.Contents() == p.messageA;
      ok := AppendPart(message, !usePsk, p.RspPart(usePsk, slot));
      if ok.IsFailure() {
        return ok.PropagateFailure();
      }
      ok := AppendPart(message, true, Ok(k));
      ok := AppendPart(message, !usePsk && isMutAuth, p.ReqPart(usePsk, isMutAuth));
      if ok.IsFailure() {
        return ok.PropagateFailure();
      }
      ok := AppendPart(message, f.Some?, Ok(if f.Some? then f.value else []));
      r := Ok(message.data[..message.used]);
    }
  }

  lemma PartsFit(p: Info, usePsk: bool, slot: nat, isMutAuth: bool)
    requires p.Valid()
    ensures p.RspPart(usePsk, slot).Ok? ==> |p.RspPart(usePsk, slot).value| <= p.certSize
    ensures p.ReqPart(usePsk, isMutAuth).Ok? ==> |p.ReqPart(usePsk, isMutAuth).value| <= p.certSize
  {
  }

  class HashedContext {
    const p: Info
    var m1m2: Option<Running>
    var l1l2: Option<Running>
    var sessions: seq<HashedSession>

    ghost function View(): Hashed
      reads this
    {
      Hashed(m1m2, l1l2, sessions)
    }

    ghost predicate Valid()
      reads this
    {
      |sessions| == |p.sessions|
    }

    constructor (p: Info)
      ensures Valid() && this.p == p
      ensures View() == HashedStart(p)
    {
      this.p := p;
      m1m2, l1l2 := None, None;
      sessions := seq(|p.sessions|, _ => HashedSession(None, false, None));
    }

    /** `hash_ctx_update` for each part, until the backend fails. */
    method Update(run: Running, parts: seq<bytes>, works: nat) returns (r: Running, left: nat, ok: bool)
      ensures (r, ok) == FeedAll(run, parts, works)
      ensures ok ==> |parts| <= works && left == works - |parts|
    {
      r, left := run, works;
      FeedAllTakes(run, parts, works);
      for i := 0 to |parts|
        invariant FeedAll(r, parts[i..], left) == FeedAll(run, parts, works)
        invariant left + i == works
      {
        if left == 0 {
          return r, left, false;
        }
        r := r.(fed := r.fed + parts[i]);
        left := left - 1;
        assert parts[i..][1..] == parts[i + 1..];
      }
      ok := true;
    }

    /** Makes and seeds a missing digest, then feeds the message. */
    method Feed(d: Option<Running>, algo: Algo, seed: seq<bytes>, message: bytes, works: nat, noDigest: Status)
      returns (r: Option<Running>, outcome: Outcome<()>)
      ensures (r, outcome) == Fed(d, algo, seed, message, works, noDigest)
    {
      var run, left := Running(algo, []), works;
      var parts := [message];
      if d.None? {
        if algo == OtherAlgo || works == 0 {
          return None, Err(noDigest);
        }
        left, parts := works - 1, seed + [message];
      } else {
        run := d.value;
      }
      var ok;
      run, left, ok := Update(run, parts, left);
      return Some(run), if ok then Ok(()) else Err(CryptoError);
    }

    method AppendMessageB(message: bytes, works: nat) returns (r: Outcome<()>)
      requires Valid()
      modifies this`m1m2
      ensures Valid() && (View(), r) == HashedStep(p, old(View()), AppendB(message), works)
    {
      m1m2, r := Feed(m1m2, p.algo, [p.messageA], message, works, InvalidStateLocal);
    }

    method AppendMessageC(message: bytes, works: nat) returns (r: Outcome<()>)
      requires Valid()
      modifies this`m1m2
      ensures Valid() && (View(), r) == HashedStep(p, old(View()), AppendC(message), works)
    {
      m1m2, r := Feed(m1m2, p.algo, [p.messageA], message, works, CryptoError);
    }

    method AppendMessageM(session: Option<nat>, message: bytes, works: nat) returns (r: Outcome<()>)
      requires Valid()
      modifies this`l1l2, this`sessions
      ensures Valid() && (View(), r) == HashedStep(p, old(View()), AppendM(session, message), works)
    {
      if session.None? {
        l1l2, r := Feed(l1l2, p.algo, p.L1L2Parts(), message, works, CryptoError);
      } else {
        var found := FindSession(p, session.value);
        if found.None? {
          return Err(InvalidStateLocal);
        }
        var d;
        d, r := Feed(sessions[found.value].l1l2, p.algo, p.L1L2Parts(), message, works, CryptoError);
        sessions := sessions[found.value := sessions[found.value].(l1l2 := d)];
      }
    }

    method AppendMessageK(id: nat, message: bytes, works: nat) returns (r: Outcome<()>)
      requires Valid()
      modifies this`sessions
      ensures Valid() && (View(), r) == HashedStep(p, old(View()), AppendK(id, message), works)
    {
      var found := FindSession(p, id);
      if found.None? {
        return Abort;
      }
      var i := found.value;
      var d;
      d, r := Feed(sessions[i].th, p.sessions[i].algo, ThParts(p.sessions[i]), message, works, CryptoError);
      sessions := sessions[i := sessions[i].(th := d)];
    }

    method AppendMessageF(id: nat, message: bytes, works: nat) returns (r: Outcome<()>)
      requires Valid()
      modifies this`sessions
      ensures Valid() && (View(), r) == HashedStep(p, old(View()), AppendF(id, message), works)
    {
      var found := FindSession(p, id);
      if found.None? {
        return Abort;
      }
      var i := found.value;
      ghost var before := sessions[i];
      if sessions[i].th.None? {
        assert sessions[i := before] == sessions;
        return Err(InvalidStateLocal);
      }
      var run, left, ok := sessions[i].th.value, works, true;
      if !sessions[i].fStarted {
        var parts := MutAuthParts(p, p.sessions[i]);
        if parts.IsFailure() {
          assert sessions[i := before] == sessions;
          return parts.PropagateFailure();
        }
        run, left, ok := Update(run, parts.value, works);
        sessions := sessions[i := sessions[i].(th := Some(run))];
        if !ok {
          return Err(CryptoError);
        }
        sessions := sessions[i := sessions[i].(fStarted := true)];
      }
      run, left, ok := Update(run, [message], left);
      sessions := sessions[i := sessions[i].(th := Some(run))];
      r := if ok then Ok(()) else Err(CryptoError);
      assert sessions[i] == HashedAppendF(p, p.sessions[i], before, message, works).0;
      assert sessions == old(sessions)[i := sessions[i]];
    }

    method ResetMessageM(session: Option<nat>)
      requires Valid()
      modifies this`l1l2, this`sessions
      ensures Valid() && View() == HashedResetM(p, old(View()), session)
    {
      if session.None? {
        l1l2 := None;
      } else {
        var found := FindSession(p, session.value);
        if found.Some? {
          sessions := sessions[found.value := sessions[found.value].(l1l2 := None)];
        }
      }
    }

    method ResetBufferViaRequestCode(opcode: Opcode, session: Option<nat>, authenticated: bool)
      requires Valid()
      modifies this
      ensures Valid() && View() == HashedReset(p, old(View()), opcode, session, authenticated)
    {
      if opcode != GetMeasurements {
        ResetMessageM(session);
      }
      match opcode
      case GetMeasurements | KeyExchange | Finish | PskExchange | PskFinish | KeyUpdate | Heartbeat | EndSession =>
        if !authenticated {
          m1m2 := None;
        }
      case GetDigests =>
        m1m2 := None;
      case OtherRequest =>
    }
  }
}
