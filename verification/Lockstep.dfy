/** Two endpoints with equal secrets and nothing in flight between operations. */
module Lockstep {
  import opened Bytes
  import opened Aead
  import opened SecuredMessage
  import opened Session

  /** Both sessions and what was encrypted so far. */
  datatype Ends = Ends(requester: Session, responder: Session, log: set<Query>) {
    function Sender(fromRequester: bool): Session {
      if fromRequester then requester else responder
    }

    function Receiver(fromRequester: bool): Session {
      if fromRequester then responder else requester
    }

    function With(fromRequester: bool, sender: Session, receiver: Session, log: set<Query>): Ends {
      if fromRequester then Ends(sender, receiver, log) else Ends(receiver, sender, log)
    }

    ghost predicate Valid() {
      requester.Valid() && responder.Valid()
    }

    predicate InLockstep() {
      requester == responder
    }
  }

  /** An exchange sends one message and delivers it, followed by any transport padding. The other
      operations are made by both endpoints. */
  datatype Op =
    | Exchange(fromRequester: bool, app: bytes, pad: bytes, sendCapacity: nat, receiveCapacity: nat)
    | Create(k: KeySchedule, updateRequester: bool, updateResponder: bool)
    | Activate(updateRequester: bool, updateResponder: bool, useNewKey: bool)
    | SetState(state: SessionState)

  /** What encoding the message of an exchange returns. */
  function Sent(c: Cipher, e: Ends, op: Op): Outcome<Encoded>
    requires e.Valid() && op.Exchange?
  {
    e.Sender(op.fromRequester).EncodeStep(c, op.app, op.sendCapacity, op.fromRequester).1
  }

  /** The receiver's view of an exchange: nothing arrives when encoding did not return a message. */
  function Received(c: Cipher, e: Ends, op: Op): Outcome<bytes>
    requires e.Valid() && op.Exchange?
  {
    match Sent(c, e, op)
    case Ok(m) =>
      e.Receiver(op.fromRequester).DecodeStep(c, e.log + {m.query}, m.wire + op.pad, op.receiveCapacity, op.fromRequester).1
    case Err(s) => Err(s)
    case Abort => Abort
  }

  function Next(c: Cipher, e: Ends, op: Op): Ends
    requires e.Valid()
  {
    match op
    case Exchange(fromRequester, app, pad, sendCapacity, receiveCapacity) =>
      var sent := e.Sender(fromRequester).EncodeStep(c, app, sendCapacity, fromRequester);
      if !sent.1.Ok? then e.With(fromRequester, sent.0, e.Receiver(fromRequester), e.log)
      else
        var log := e.log + {sent.1.value.query};
        var received := e.Receiver(fromRequester).DecodeStep(c, log, sent.1.value.wire + pad, receiveCapacity, fromRequester);
        e.With(fromRequester, sent.0, received.0, log)
    case Create(k, a, b) =>
      e.(requester := e.requester.CreateStep(k, a, b).0, responder := e.responder.CreateStep(k, a, b).0)
    case Activate(a, b, useNewKey) =>
      e.(requester := e.requester.ActivateStep(a, b, useNewKey), responder := e.responder.ActivateStep(a, b, useNewKey))
    case SetState(state) =>
      e.(requester := e.requester.(state := state), responder := e.responder.(state := state))
  }

  /** A message was encoded, and the receiver's buffer can hold it. */
  predicate Delivers(c: Cipher, e: Ends, op: Op)
    requires e.Valid()
  {
    op.Exchange? ==> Sent(c, e, op).Ok? && |op.app| <= op.receiveCapacity
  }

  lemma NextKeepsValid(c: Cipher, e: Ends, op: Op)
    requires e.Valid() && (op.Create? ==> op.k.Valid())
    ensures Next(c, e, op).Valid()
  {
    if op.Create? {
      StepsKeepValid(e.requester, c, {}, op.k, [], 0, op.updateRequester, op.updateResponder, false);
      StepsKeepValid(e.responder, c, {}, op.k, [], 0, op.updateRequester, op.updateResponder, false);
    }
  }

  lemma ExchangeDelivers(c: Cipher, e: Ends, op: Op)
    requires c.Correct() && e.Valid() && e.InLockstep() && op.Exchange? && Delivers(c, e, op)
    ensures Received(c, e, op) == Ok(op.app)
    ensures Next(c, e, op).InLockstep()
  {
    var s := e.Sender(op.fromRequester);
    var p := s.Param(op.fromRequester);
    var m := Sent(c, e, op).value;
    DecodeOfEncode(s.framing, c, e.log + {m.query}, p, op.app, op.sendCapacity, op.pad, op.receiveCapacity);
  }

  /** One operation that delivers, if it starts from well-formed sessions. */
  ghost predicate Takes(c: Cipher, e: Ends, op: Op, next: Ends) {
    && (op.Create? ==> op.k.Valid())
    && (e.Valid() ==> Delivers(c, e, op) && next == Next(c, e, op))
  }

  /** A run from equal sessions. */
  ghost predicate IsRun(c: Cipher, es: seq<Ends>, ops: seq<Op>) {
    && |es| == |ops| + 1
    && es[0].Valid() && es[0].InLockstep()
    && forall i :: 0 <= i < |ops| ==> Takes(c, es[i], ops[i], es[i + 1])
  }

  lemma {:induction false} RunStaysValid(c: Cipher, es: seq<Ends>, ops: seq<Op>, i: nat)
    requires IsRun(c, es, ops) && i <= |ops|
    ensures es[i].Valid()
    decreases i
  {
    if i > 0 {
      RunStaysValid(c, es, ops, i - 1);
      assert Takes(c, es[i - 1], ops[i - 1], es[i]);
      NextKeepsValid(c, es[i - 1], ops[i - 1]);
    }
  }

  /** Over every run both ends agree on every secret, key, salt, counter and backup, and every
      exchange delivers exactly what was sent. */
  lemma {:induction false} LockstepRun(c: Cipher, es: seq<Ends>, ops: seq<Op>, i: nat)
    requires c.Correct() && IsRun(c, es, ops) && i <= |ops|
    ensures es[i].Valid() && es[i].InLockstep()
    ensures i < |ops| && ops[i].Exchange? ==> Received(c, es[i], ops[i]) == Ok(ops[i].app)
    decreases i
  {
    RunStaysValid(c, es, ops, i);
    if i > 0 {
      LockstepRun(c, es, ops, i - 1);
      var op := ops[i - 1];
      assert Takes(c, es[i - 1], op, es[i]);
      if op.Exchange? {
        ExchangeDelivers(c, es[i - 1], op);
      }
    }
    if i < |ops| && ops[i].Exchange? {
      assert Takes(c, es[i], ops[i], es[i + 1]);
      ExchangeDelivers(c, es[i], ops[i]);
    }
  }

  /** The sender counts an attempt that the receiver does not: the message gets as far as the cipher, and
      then encryption fails, or it goes out and is too long for the receiver's buffer. */
  predicate LosesCount(c: Cipher, s: Session, op: Op)
    requires s.Valid() && op.Exchange?
  {
    var p, size := s.Param(op.fromRequester), s.framing.AadSize() + |op.app| + 2;
    && s.Live() && p.seqNum < U64_MAX && |op.app| + 2 <= SENDER_BUFFER_SIZE && size <= op.sendCapacity
    && (c.seal(QueryFor(s.framing, p, op.app)).None?
        || (size + TAG_SIZE <= op.sendCapacity && |op.app| > op.receiveCapacity))
  }

  /** When an exchange preserves lockstep, by what can be checked before it. */
  lemma ExchangeKeepsLockstepIff(c: Cipher, e: Ends, op: Op)
    requires c.Correct() && e.Valid() && e.InLockstep() && op.Exchange?
    ensures Next(c, e, op).InLockstep() <==> !LosesCount(c, e.Sender(op.fromRequester), op)
  {
    var s := e.Sender(op.fromRequester);
    var p := s.Param(op.fromRequester);
    assert s.Live() ==> s.Tick(op.fromRequester) != s by {
      assert s.Tick(op.fromRequester).Param(op.fromRequester).seqNum == p.seqNum + 1;
    }
    EncodeSucceeds(s.framing, c, p, op.app, op.sendCapacity);
    if Sent(c, e, op).Ok? {
      if |op.app| <= op.receiveCapacity {
        ExchangeDelivers(c, e, op);
      } else {
        LongMessageAborts(c, e, op);
      }
    }
  }

  lemma LongMessageAborts(c: Cipher, e: Ends, op: Op)
    requires c.Correct() && e.Valid() && e.InLockstep() && op.Exchange?
    requires Sent(c, e, op).Ok? && |op.app| > op.receiveCapacity
    ensures Received(c, e, op) == Abort
  {
    var s := e.Sender(op.fromRequester);
    var p := s.Param(op.fromRequester);
    var q := QueryFor(s.framing, p, op.app);
    ParseOfWire(s.framing, p.seqNum, |op.app| + 2 + TAG_SIZE, c.seal(q).value, op.pad);
    DecryptLogged(c, e.log + {q}, q);
    PlainReadsBack(op.app, op.receiveCapacity);
  }
}
