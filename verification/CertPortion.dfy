/** The transfer of a certificate chain in portions during encapsulated requests: the requester that serves
    its chain and the responder that collects it. */
module CertPortion {
  import opened Bytes

  const MAX_PORTION: nat := 512
  const MAX_CHAIN_DATA: nat := 4096
  const CHAIN_BUFFER: nat := 4 + 64 + 4096
  const U16_MAX: nat := 0xFFFF

  type Portion = s: bytes | |s| == MAX_PORTION witness seq(MAX_PORTION, _ => 0)

  /** The answer: `length` bytes of the fixed buffer `data`, and how much of the chain comes after them. */
  datatype Response = Certificate(slot: byte, length: nat, remainder: nat, data: Portion) | ErrorResponse

  function Add16(a: nat, b: nat): Outcome<nat> {
    if a + b > U16_MAX then Abort else Ok(a + b)
  }

  function Min(a: nat, b: nat): nat {
    if a < b then a else b
  }

  function Served(chain: bytes, offset: nat, length: nat): nat
    requires offset <= |chain|
  {
    Min(Min(length, MAX_PORTION), |chain| - offset)
  }

  function Padded(part: bytes): (p: Portion)
    requires |part| <= MAX_PORTION
    ensures p[..|part|] == part
  {
    part + seq(MAX_PORTION - |part|, _ => 0)
  }

  /** The answer to a request: as much as is asked for, fits a portion and is left of the chain. Offset,
      portion and remainder always add up to the size of the chain. */
  function Answer(chain: bytes, slot: byte, offset: nat, asked: nat): (r: Response)
    ensures r.Certificate? <==> slot == 0 && offset <= |chain|
    ensures r.Certificate? ==>
              && offset + r.length + r.remainder == |chain| && r.length <= 512 && r.length <= asked
              && (r.remainder == 0 || r.length == asked || r.length == 512)
              && r.slot == slot && r.data[..r.length] == chain[offset..offset + r.length]
  {
    if slot != 0 || offset > |chain| then ErrorResponse
    else
      var n := Served(chain, offset, asked);
      Certificate(slot, n, |chain| - offset - n, Padded(chain[offset..offset + n]))
  }

  /** The portion and remainder computed by `encap_handle_get_certificate`. No `u16` sum overflows. */
  method Serve(chain: bytes, slot: byte, offset: nat, asked: nat) returns (r: Outcome<Response>)
    requires |chain| <= 0xFFFF
    ensures r == Ok(Answer(chain, slot, offset, asked))
  {
    if slot != 0 {
      return Ok(ErrorResponse);
    }
    var length := asked;
    if length > MAX_PORTION {
      length := MAX_PORTION;
    }
    if offset > |chain| {
      return Ok(ErrorResponse);
    }
    if length > |chain| - offset {
      length := |chain| - offset;
    }
    var end := Add16(length, offset);
    if end.IsFailure() {
      return Abort;
    }
    var remainder := |chain| - end.value;
    var portion := Fill(chain[offset..offset + length]);
    r := Ok(Certificate(slot, length, remainder, portion));
  }

  /** A portion buffer with `part` in front. */
  method Fill(part: bytes) returns (portion: Portion)
    requires |part| <= MAX_PORTION
    ensures portion == Padded(part)
  {
    var buffer := new byte[MAX_PORTION](_ => 0);
    CopyInto(buffer, 0, part);
    assert buffer[..] == buffer[..0] + part + buffer[|part|..];
    portion := buffer[..];
  }

  /** A client that asks for any non-zero lengths at its running offset ends with exactly the chain. */
  method Fetch(chain: bytes, ask: nat -> nat) returns (got: bytes, rounds: nat)
    requires |chain| <= 0xFFFF
    requires forall i :: 1 <= ask(i) <= 0xFFFF
    ensures got == chain && 1 <= rounds <= |chain| + 1
  {
    got, rounds := [], 0;
    var remainder := 1;
    while remainder != 0
      invariant |got| <= |chain| && got == chain[..|got|] && rounds <= |got| + 1
      invariant remainder == 0 ==> got == chain && rounds >= 1
      invariant remainder != 0 ==> rounds <= |got|
      invariant remainder != 0 && rounds > 0 ==> |got| < |chain|
      decreases remainder != 0, |chain| - |got|
    {
      var r := Serve(chain, 0, |got|, ask(rounds));
      got := got + r.value.data[..r.value.length];
      remainder := r.value.remainder;
      rounds := rounds + 1;
    }
  }

  // The responder that collects a chain

  /** `peer_cert_chain_temp` and `encap_cert_size` */
  datatype Client = Client(got: Option<bytes>, total: nat) {
    /** `encode_encap_requst_get_certificate` starts with an empty buffer; the offset asked for is its size. */
    function Requested(): Client {
      if got.None? then this.(got := Some([])) else this
    }

    function Size(): nat {
      if got.Some? then |got.value| else 0
    }

    ghost predicate Inv() {
      got.Some? && got.value != [] ==> |got.value| <= total < MAX_CHAIN_DATA
    }

    /** The checks before anything is stored. */
    predicate Refuses(slot: byte, r: Response)
      requires got.Some? && r.Certificate? && |got.value| <= MAX_CHAIN_DATA
    {
      var room := MAX_CHAIN_DATA - |got.value|;
      r.length > MAX_PORTION || r.length > room || r.remainder >= room - r.length || r.slot != slot
    }

    function TotalWith(r: Response): nat
      requires got.Some? && r.Certificate?
    {
      if got.value == [] then r.length + r.remainder else total
    }

    /** `handle_encap_response_certificate` up to the verification of a complete chain: whether another
        portion is to be asked for. */
    function Receive(slot: byte, r: Response): (Client, Outcome<bool>) {
      if r.ErrorResponse? then (this, Err(UnsupportedCap))
      else if got.None? then (this, Err(InvalidStateLocal))
      else if |got.value| > MAX_CHAIN_DATA then (this, Abort)
      else if Refuses(slot, r) then (this, Err(InvalidMsgField))
      else
        var t := TotalWith(r);
        if t != 0 && t != |got.value| + r.length + r.remainder then (this.(total := t), Err(InvalidMsgField))
        else if t == 0 then (Client(None, 0), Err(InvalidCert))
        else (Client(Some(got.value + r.data[..r.length]), t), Ok(r.remainder != 0))
    }
  }

  /** Whatever the peer answers, the collected bytes stay within the announced size and the buffer, no
      subtraction underflows, and a chain is complete exactly at the announced size. */
  lemma ReceiveKeepsInv(c: Client, slot: byte, r: Response)
    requires c.Inv()
    ensures var next := c.Receive(slot, r);
            && next.0.Inv() && !next.1.Abort?
            && (next.1.Ok? ==> && next.0.got.Some? && |next.0.got.value| + r.remainder == next.0.total
                               && next.0.got.value == c.got.value + r.data[..r.length]
                               && (next.1.value <==> |next.0.got.value| < next.0.total))
  {
  }

  /** Exactly which answers are taken: of the slot asked for, at most 512 bytes, leaving the chain below 4096,
      and adding up to the size announced first. */
  lemma ReceiveOkIff(c: Client, slot: byte, r: Response)
    requires c.Inv()
    ensures c.Receive(slot, r).1.Ok? <==>
            && r.Certificate? && c.got.Some? && r.slot == slot && r.length <= 512
            && 0 < |c.got.value| + r.length + r.remainder < 4096
            && (c.got.value != [] ==> |c.got.value| + r.length + r.remainder == c.total)
    ensures c.Receive(slot, r).1.Err? ==>
              c.Receive(slot, r).1.status == if r.ErrorResponse? then UnsupportedCap
                                             else if c.got.None? then InvalidStateLocal
                                             else if r.slot == slot && c.got.value == [] && r.length + r.remainder == 0 then InvalidCert
                                             else InvalidMsgField
  {
  }

  /** One exchange of the collecting responder with a requester that holds `chain`. */
  function Round(c: Client, chain: bytes, slot: byte): (Client, Outcome<bool>) {
    var asked := c.Requested();
    asked.Receive(slot, Answer(chain, slot, |asked.got.value|, MAX_PORTION))
  }

  /** Exchanges until the chain is complete; one that asks for more without having received anything would
      go on for ever. */
  function Collect(c: Client, chain: bytes, slot: byte): Outcome<bytes>
    decreases |chain| - c.Size()
  {
    var next := Round(c, chain, slot);
    if next.1.IsFailure() then next.1.PropagateFailure()
    else if next.0.got.None? then Abort
    else if !next.1.value then Ok(next.0.got.value)
    else if c.Size() < next.0.Size() <= |chain| then Collect(next.0, chain, slot)
    else Abort
  }

  /** The next portion of a chain is appended. */
  lemma RoundFrom(c: Client, chain: bytes)
    requires c.Size() < |chain| < MAX_CHAIN_DATA && (c.got.Some? ==> c.got.value == chain[..c.Size()])
    requires c.Size() > 0 ==> c.total == |chain|
    ensures var r := Answer(chain, 0, c.Size(), MAX_PORTION);
            Round(c, chain, 0) == (Client(Some(chain[..c.Size() + r.length]), |chain|), Ok(r.remainder != 0))
  {
    var k := c.Size();
    var n := Answer(chain, 0, k, MAX_PORTION).length;
    assert chain[..k] + chain[k..k + n] == chain[..k + n];
  }

  /** The rest of a chain is collected. */
  lemma {:induction false} CollectFrom(c: Client, chain: bytes)
    requires c.Size() < |chain| < MAX_CHAIN_DATA && (c.got.Some? ==> c.got.value == chain[..c.Size()])
    requires c.Size() > 0 ==> c.total == |chain|
    ensures Collect(c, chain, 0) == Ok(chain)
    decreases |chain| - c.Size()
  {
    RoundFrom(c, chain);
    var r := Answer(chain, 0, c.Size(), MAX_PORTION);
    if r.remainder != 0 {
      CollectFrom(Client(Some(chain[..c.Size() + r.length]), |chain|), chain);
    } else {
      assert chain[..|chain|] == chain;
    }
  }

  /** The whole exchange, started afresh: exactly the non-empty chains of less than 4096 bytes in slot 0
      are collected, and they are collected unchanged. A chain that fills the configured maximum is
      refused at its first portion. */
  lemma CollectIs(chain: bytes, slot: byte, total: nat)
    ensures Collect(Client(None, total), chain, slot) ==
            if slot != 0 then Err(UnsupportedCap)
            else if chain == [] then Err(InvalidCert)
            else if |chain| >= 4096 then Err(InvalidMsgField)
            else Ok(chain)
  {
    if slot == 0 && 0 < |chain| < MAX_CHAIN_DATA {
      CollectFrom(Client(None, total), chain);
    }
  }

  /** The collecting responder's state, in place. */
  class Collector {
    const slot: byte
    const data: array<byte>
    var present: bool
    var size: nat
    var total: nat

    ghost predicate Valid()
      reads this, data
    {
      data.Length == CHAIN_BUFFER && size <= data.Length && View().Inv()
    }

    ghost function View(): Client
      requires size <= data.Length
      reads this, data
    {
      Client(if present then Some(data[..size]) else None, total)
    }

    constructor (slot: byte)
      ensures Valid() && View() == Client(None, 0) && this.slot == slot && fresh(data) && data.Length == 4 + 64 + 4096
    {
      this.slot := slot;
      data := new byte[CHAIN_BUFFER](_ => 0);
      present, size, total := false, 0, 0;
    }

    /** `encode_encap_requst_get_certificate`: the offset to ask for. */
    method Request() returns (offset: nat)
      requires Valid()
      modifies this
      ensures Valid() && View() == old(View()).Requested() && offset == |View().got.value|
    {
      if !present {
        present, size := true, 0;
      }
      offset := size;
    }

    /** `handle_encap_response_certificate` */
    method Handle(r: Response) returns (more: Outcome<bool>)
      requires Valid()
      modifies this, data
      ensures Valid() && (View(), more) == old(View()).Receive(slot, r)
    {
      ghost var before := View();
      ReceiveKeepsInv(before, slot, r);
      if r.ErrorResponse? {
        return Err(UnsupportedCap);
      }
      if !present {
        return Err(InvalidStateLocal);
      }
      var offset := size;
      assert |before.got.value| == offset;
      if r.length > MAX_PORTION || r.length > MAX_CHAIN_DATA - offset {
        return Err(InvalidMsgField);
      }
      if r.remainder >= MAX_CHAIN_DATA - offset - r.length {
        return Err(InvalidMsgField);
      }
      if r.slot != slot {
        return Err(InvalidMsgField);
      }
      if offset == 0 {
        total := r.length + r.remainder;
      }
      if total != 0 && total != offset + r.length + r.remainder {
        return Err(InvalidMsgField);
      }
      CopyInto(data, offset, r.data[..r.length]);
      assert data[..offset + r.length] == data[..offset] + data[offset..offset + r.length];
      size := offset + r.length;
      if total == 0 {
        present := false;
        return Err(InvalidCert);
      }
      more := Ok(r.remainder != 0);
    }
  }
}
