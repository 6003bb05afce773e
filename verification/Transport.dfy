/** The two transport bindings: MCTP (one type byte) and PCI DOE (an eight-byte header, payload
    padded to a multiple of four, an 18-bit length in double words that writes 2^18 as 0). */
module Transport {
  import opened Bytes
  import opened Codec

  datatype Binding = Mctp | PciDoe

  const MCTP_PLDM: byte := 0x01
  const MCTP_SPDM: byte := 0x05
  const MCTP_SECURED: byte := 0x06
  const DOE_SPDM: byte := 0x01
  const DOE_SECURED_SPDM: byte := 0x02
  const DOE_HEADER_SIZE: nat := 8
  const DOE_MAX_DWORDS: nat := 0x4_0000

  datatype Decapped = Decapped(payload: bytes, secured: bool)

  function Aligned(n: nat): (a: nat)
    ensures n <= a < n + 4 && a % 4 == 0
  {
    (n + 3) / 4 * 4
  }

  function MctpType(secured: bool): byte {
    if secured then MCTP_SECURED else MCTP_SPDM
  }

  function DoeType(secured: bool): byte {
    if secured then DOE_SECURED_SPDM else DOE_SPDM
  }

  /** The length field of a data object with `n` payload bytes. */
  function DoeLength(n: nat): nat {
    var dwords := (n + 8) / 4;
    if dwords == DOE_MAX_DWORDS then 0 else dwords
  }

  /** The payload size a length field stands for; `None` for the one value that is too small. */
  function DoePayload(field: nat): Option<nat> {
    var dwords := field % DOE_MAX_DWORDS;
    if dwords == 0 then Some(4 * DOE_MAX_DWORDS - 8)
    else if dwords < 2 then None
    else Some(4 * dwords - 8)
  }

  function DoeHeader(secured: bool, n: nat): (h: bytes)
    ensures |h| == DOE_HEADER_SIZE
  {
    Le(1, 2) + [DoeType(secured), 0] + Le(DoeLength(n), 4)
  }

  /** `wire` is what encapsulating `payload` leaves in the transport buffer. The bytes after a DOE
      payload, up to its aligned end, are whatever the buffer held before. */
  ghost predicate Encapsulates(b: Binding, payload: bytes, secured: bool, wire: bytes) {
    match b
    case Mctp => wire == [MctpType(secured)] + payload
    case PciDoe =>
      && |wire| == DOE_HEADER_SIZE + Aligned(|payload|)
      && wire[..DOE_HEADER_SIZE] == DoeHeader(secured, Aligned(|payload|))
      && wire[DOE_HEADER_SIZE..DOE_HEADER_SIZE + |payload|] == payload
  }

  /** The size of the encapsulated message, or why there is none. A DOE length is cast to `u32` first. */
  function EncapSize(b: Binding, n: nat, capacity: nat): (r: Outcome<nat>) {
    match b
    case Mctp => if capacity < 1 + n then Err(EncapFail) else Ok(1 + n)
    case PciDoe =>
      if capacity < 4 then Err(EncapFail)
      else if (Aligned(n) % 0x1_0000_0000 + 8) / 4 > DOE_MAX_DWORDS then Abort
      else if capacity < DOE_HEADER_SIZE + Aligned(n) then Err(EncapFail)
      else Ok(DOE_HEADER_SIZE + Aligned(n))
  }

  function Decap(b: Binding, wire: bytes, capacity: nat): (r: Outcome<Decapped>) {
    match b
    case Mctp =>
      if |wire| < 1 || (wire[0] != MCTP_SPDM && wire[0] != MCTP_SECURED) then Err(DecapFail)
      else if capacity < |wire| - 1 then Err(DecapFail)
      else Ok(Decapped(wire[1..], wire[0] == MCTP_SECURED))
    case PciDoe =>
      if |wire| < DOE_HEADER_SIZE then Err(DecapFail)
      else
        match DoePayload(FromLe(wire[4..8]))
        case None => Err(DecapFail)
        case Some(size) =>
          if FromLe(wire[..2]) != 1 || (wire[2] != DOE_SPDM && wire[2] != DOE_SECURED_SPDM) then Err(DecapFail)
          else if |wire| < DOE_HEADER_SIZE + size || capacity < size then Err(DecapFail)
          else Ok(Decapped(wire[DOE_HEADER_SIZE..DOE_HEADER_SIZE + size], wire[2] == DOE_SECURED_SPDM))
  }

  function EncapApp(b: Binding, payload: bytes, isApp: bool, capacity: nat): (r: Outcome<bytes>) {
    match b
    case Mctp => if capacity < 1 + |payload| then Err(EncapAppFail) else Ok([if isApp then MCTP_PLDM else MCTP_SPDM] + payload)
    case PciDoe => if capacity < |payload| then Abort else Ok(payload)
  }

  function DecapApp(b: Binding, app: bytes, capacity: nat): (r: Outcome<bytes>) {
    match b
    case Mctp =>
      if |app| < 1 || (app[0] != MCTP_SPDM && app[0] != MCTP_PLDM) || capacity < |app| - 1 then Err(DecapAppFail)
      else Ok(app[1..])
    case PciDoe => if capacity < |app| then Abort else Ok(app)
  }

  /** Exactly when there is room: over MCTP for one byte more than the payload; over DOE for the header and
      the payload aligned to four. A data object of more than 2^20 bytes, its length cast to `u32`, panics. */
  lemma EncapFitsIff(n: nat, capacity: nat)
    ensures EncapSize(Mctp, n, capacity) == if 1 + n <= capacity then Ok(1 + n) else Err(EncapFail)
    ensures var aligned := (n + 3) / 4 * 4;
            EncapSize(PciDoe, n, capacity) ==
            if capacity >= 4 && aligned % 0x1_0000_0000 + 8 > 0x10_0000 then Abort
            else if 8 + aligned <= capacity then Ok(8 + aligned) else Err(EncapFail)
  {
  }

  /** The bytes of an encapsulated message. */
  lemma EncapsulatesMeans(b: Binding, payload: bytes, secured: bool, wire: bytes)
    requires Encapsulates(b, payload, secured, wire) && (b.PciDoe? ==> |payload| <= 0x10_0000 - 8)
    ensures b.Mctp? ==> wire == [if secured then 6 else 5] + payload
    ensures b.PciDoe? ==>
              && |wire| == 8 + (|payload| + 3) / 4 * 4 && wire[..4] == [1, 0, if secured then 2 else 1, 0]
              && wire[8..8 + |payload|] == payload
              && 4 * FromLe(wire[4..8]) == (if |wire| == 0x10_0000 then 0 else |wire|)
  {
    if b.PciDoe? {
      DoeHeaderReads(secured, Aligned(|payload|), wire);
      assert Le(1, 2) == [1, 0];
      assert wire[..4] == wire[..8][..4] == Le(1, 2) + [DoeType(secured), 0];
    }
  }

  /** What decapsulation accepts and what it makes of it; anything else is refused. */
  lemma DecapMeans(wire: bytes, capacity: nat)
    ensures Decap(Mctp, wire, capacity) ==
            if |wire| >= 1 && (wire[0] == 5 || wire[0] == 6) && |wire| - 1 <= capacity then Ok(Decapped(wire[1..], wire[0] == 6))
            else Err(DecapFail)
    ensures var size := if |wire| < 8 then 0 else ObjectSize(FromLe(wire[4..8]));
            Decap(PciDoe, wire, capacity) ==
            if |wire| >= 8 && FromLe(wire[..2]) == 1 && (wire[2] == 1 || wire[2] == 2) && 8 <= size <= |wire| && size - 8 <= capacity
            then Ok(Decapped(wire[8..size], wire[2] == 2))
            else Err(DecapFail)
  {
  }

  /** The bytes of a data object, header included, by its 18-bit length in double words. */
  function ObjectSize(field: nat): nat {
    if field % 0x4_0000 == 0 then 0x10_0000 else 4 * (field % 0x4_0000)
  }

  /** The application header over MCTP: one byte, 1 for the application's messages and 5 for SPDM's; none
      over DOE, where a message that does not fit is a panic. */
  lemma AppHeaderMeans(app: bytes, isApp: bool, capacity: nat)
    ensures EncapApp(Mctp, app, isApp, capacity) ==
            if 1 + |app| <= capacity then Ok([if isApp then 1 else 5] + app) else Err(EncapAppFail)
    ensures DecapApp(Mctp, app, capacity) ==
            if |app| >= 1 && (app[0] == 1 || app[0] == 5) && |app| - 1 <= capacity then Ok(app[1..]) else Err(DecapAppFail)
    ensures EncapApp(PciDoe, app, isApp, capacity) == DecapApp(PciDoe, app, capacity) == if |app| <= capacity then Ok(app) else Abort
  {
  }

  /** The 18-bit length round trip, the full-size object included. */
  lemma DoeLengthRoundTrip(n: nat)
    requires n % 4 == 0 && n <= 4 * DOE_MAX_DWORDS - 8
    ensures DoeLength(n) < 0x1_0000_0000
    ensures DoePayload(DoeLength(n)) == Some(n)
  {
  }

  /** Decapsulating what was encapsulated gives the payload and the flag back: exactly over MCTP, and
      over DOE with the zero to three bytes that align it. Bytes after a data object are ignored;
      bytes after an MCTP message count as payload. */
  lemma DecapOfEncap(b: Binding, payload: bytes, secured: bool, wire: bytes, after: bytes, capacity: nat)
    requires Encapsulates(b, payload, secured, wire)
    requires b.PciDoe? ==> |payload| <= 4 * DOE_MAX_DWORDS - 8 && Aligned(|payload|) <= capacity
    requires b.Mctp? ==> |payload| + |after| <= capacity
    ensures var r := Decap(b, wire + after, capacity);
            && r.Ok? && r.value.secured == secured
            && payload <= r.value.payload
            && (b.Mctp? ==> r.value.payload == payload + after)
            && (b.PciDoe? ==> |r.value.payload| == Aligned(|payload|) && |r.value.payload| - |payload| < 4)
  {
    if b.PciDoe? {
      var n := Aligned(|payload|);
      DoeHeaderReads(secured, n, wire + after);
      DoeLengthRoundTrip(n);
    }
  }

  lemma DoeHeaderReads(secured: bool, n: nat, wire: bytes)
    requires |wire| >= DOE_HEADER_SIZE && wire[..DOE_HEADER_SIZE] == DoeHeader(secured, n)
    requires n % 4 == 0 && n <= 4 * DOE_MAX_DWORDS - 8
    ensures FromLe(wire[..2]) == 1 && wire[2] == DoeType(secured) && FromLe(wire[4..8]) == DoeLength(n)
  {
    var h := DoeHeader(secured, n);
    PartsOf(Le(1, 2), [DoeType(secured), 0], Le(DoeLength(n), 4), []);
    assert h == Le(1, 2) + [DoeType(secured), 0] + Le(DoeLength(n), 4) + [];
    assert wire[..2] == h[..2] && wire[4..8] == h[4..8] && wire[2] == h[2..4][0];
    DoeLengthRoundTrip(n);
    Pow256Values();
    FromLeOfLe(1, 2);
    FromLeOfLe(DoeLength(n), 4);
  }

  lemma DecapAppOfEncapApp(b: Binding, payload: bytes, isApp: bool, capacity: nat, received: nat)
    requires EncapApp(b, payload, isApp, capacity).Ok? && |payload| <= received
    ensures DecapApp(b, EncapApp(b, payload, isApp, capacity).value, received) == Ok(payload)
    ensures b.Mctp? ==> (EncapApp(b, payload, isApp, capacity).value[0] == MCTP_PLDM <==> isApp)
  {
    assert b.Mctp? ==> EncapApp(b, payload, isApp, capacity).value[1..] == payload;
  }

  // MCTP

  method MctpEncap(payload: bytes, transport: array<byte>, secured: bool) returns (r: Outcome<nat>)
    modifies transport
    ensures r == EncapSize(Mctp, |payload|, transport.Length)
    ensures r.Ok? ==> Encapsulates(Mctp, payload, secured, transport[..r.value])
    ensures r == if 1 + |payload| <= transport.Length then Ok(1 + |payload|) else Err(EncapFail)
    ensures r.Ok? ==> transport[..r.value] == [if secured then 6 else 5] + payload && transport[r.value..] == old(transport[r.value..])
  {
    var writer := new Writer(transport, 0);
    var ok := writer.Push(MctpType(secured));
    if !ok || transport.Length < writer.offs + |payload| {
      return Err(EncapFail);
    }
    CopyInto(transport, 1, payload);
    r := Ok(1 + |payload|);
  }

  method MctpDecap(transport: bytes, spdm: array<byte>) returns (r: Outcome<(nat, bool)>)
    modifies spdm
    ensures var d := Decap(Mctp, transport, spdm.Length);
            if d.Ok? then r == Ok((|d.value.payload|, d.value.secured)) && spdm[..|d.value.payload|] == d.value.payload
            else d.Err? && r == Err(d.status)
    ensures r.Ok? <==> |transport| >= 1 && (transport[0] == 5 || transport[0] == 6) && |transport| - 1 <= spdm.Length
    ensures r.Ok? ==> r.value == (|transport| - 1, transport[0] == 6) && spdm[..|transport| - 1] == transport[1..]
                      && spdm[|transport| - 1..] == old(spdm[|transport| - 1..])
    ensures !r.Ok? ==> r == Err(DecapFail) && unchanged(spdm)
  {
    var reader := new Reader(transport);
    var header := reader.ReadU8();
    if header.None? || (header.value != MCTP_SPDM && header.value != MCTP_SECURED) {
      return Err(DecapFail);
    }
    var payload := transport[reader.offs..];
    if spdm.Length < |payload| {
      return Err(DecapFail);
    }
    CopyInto(spdm, 0, payload);
    r := Ok((|payload|, header.value == MCTP_SECURED));
  }

  method MctpEncapApp(payload: bytes, app: array<byte>, isApp: bool) returns (r: Outcome<nat>)
    modifies app
    ensures var e := EncapApp(Mctp, payload, isApp, app.Length);
            if e.Ok? then r == Ok(|e.value|) && app[..|e.value|] == e.value else e.Err? && r == Err(e.status)
    ensures r == if 1 + |payload| <= app.Length then Ok(1 + |payload|) else Err(EncapAppFail)
    ensures r.Ok? ==> app[..r.value] == [if isApp then 1 else 5] + payload && app[r.value..] == old(app[r.value..])
  {
    var writer := new Writer(app, 0);
    var ok := writer.Push(if isApp then MCTP_PLDM else MCTP_SPDM);
    if !ok || app.Length < writer.offs + |payload| {
      return Err(EncapAppFail);
    }
    CopyInto(app, 1, payload);
    r := Ok(1 + |payload|);
  }

  /** The size of the message, and whether it is the application's. */
  method MctpDecapApp(app: bytes, spdm: array<byte>) returns (r: Outcome<(nat, bool)>)
    modifies spdm
    ensures var d := DecapApp(Mctp, app, spdm.Length);
            if d.Ok? then r == Ok((|d.value|, app[0] == MCTP_PLDM)) && spdm[..|d.value|] == d.value
            else d.Err? && r == Err(d.status)
    ensures r.Ok? <==> |app| >= 1 && (app[0] == 1 || app[0] == 5) && |app| - 1 <= spdm.Length
    ensures r.Ok? ==> r.value == (|app| - 1, app[0] == 1) && spdm[..|app| - 1] == app[1..] && spdm[|app| - 1..] == old(spdm[|app| - 1..])
    ensures !r.Ok? ==> r == Err(DecapAppFail) && unchanged(spdm)
  {
    var reader := new Reader(app);
    var header := reader.ReadU8();
    if header.None? || (header.value != MCTP_SPDM && header.value != MCTP_PLDM) {
      return Err(DecapAppFail);
    }
    var payload := app[reader.offs..];
    if spdm.Length < |payload| {
      return Err(DecapAppFail);
    }
    CopyInto(spdm, 0, payload);
    r := Ok((|payload|, header.value == MCTP_PLDM));
  }

  // PCI DOE

  /** Vendor id, object type and the reserved byte. */
  method DoeWriteIds(writer: Writer, secured: bool) returns (ok: bool)
    requires writer.Valid() && writer.base == 0 && writer.offs == 0
    modifies writer, writer.buf
    ensures writer.Valid()
    ensures ok <==> writer.buf.Length >= 4
    ensures ok ==> writer.offs == 4 && writer.buf[..] == Spliced(old(writer.buf[..]), 0, Le(1, 2) + [DoeType(secured), 0])
  {
    ghost var before := writer.buf[..];
    ok := writer.EncodeWhole(1, 2);
    if !ok {
      return;
    }
    ok := writer.Push(DoeType(secured));
    if !ok {
      return;
    }
    SpliceTwice(before, 0, Le(1, 2), [DoeType(secured)]);
    ok := writer.Push(0);
    if !ok {
      return;
    }
    SpliceTwice(before, 0, Le(1, 2) + [DoeType(secured)], [0]);
    assert Le(1, 2) + [DoeType(secured)] + [0] == Le(1, 2) + [DoeType(secured), 0];
  }

  /** The header codec: a short buffer is an error, a length beyond 18 bits a panic; the length is
      examined only once the first four bytes are out. */
  method DoeWriteHeader(writer: Writer, secured: bool, payloadLength: nat) returns (r: Outcome<()>)
    requires writer.Valid() && writer.base == 0 && writer.offs == 0 && payloadLength < 0x1_0000_0000
    modifies writer, writer.buf
    ensures writer.Valid()
    ensures if writer.buf.Length < 4 then r == Err(EncapFail)
            else if (payloadLength + 8) / 4 > DOE_MAX_DWORDS then r == Abort
            else if writer.buf.Length < DOE_HEADER_SIZE then r == Err(EncapFail)
            else r == Ok(()) && writer.offs == DOE_HEADER_SIZE
                 && writer.buf[..] == Spliced(old(writer.buf[..]), 0, DoeHeader(secured, payloadLength))
  {
    ghost var before := writer.buf[..];
    var ok := DoeWriteIds(writer, secured);
    if !ok {
      return Err(EncapFail);
    }
    if payloadLength + 8 > 0xFFFF_FFFF {
      return Abort;
    }
    var length := (payloadLength + 8) / 4;
    if length > DOE_MAX_DWORDS {
      return Abort;
    }
    if length == DOE_MAX_DWORDS {
      length := 0;
    }
    ok := writer.EncodePushed(length, 4);
    if !ok {
      return Err(EncapFail);
    }
    SpliceTwice(before, 0, Le(1, 2) + [DoeType(secured), 0], Le(length, 4));
    r := Ok(());
  }

  method DoeEncap(payload: bytes, transport: array<byte>, secured: bool) returns (r: Outcome<nat>)
    modifies transport
    ensures r == EncapSize(PciDoe, |payload|, transport.Length)
    ensures r.Ok? && |payload| <= 4 * DOE_MAX_DWORDS - 8 ==> Encapsulates(PciDoe, payload, secured, transport[..r.value])
    ensures var aligned := (|payload| + 3) / 4 * 4;
            r == if transport.Length >= 4 && aligned % 0x1_0000_0000 + 8 > 0x10_0000 then Abort
                 else if 8 + aligned <= transport.Length then Ok(8 + aligned) else Err(EncapFail)
    ensures r.Ok? ==> 8 + |payload| <= transport.Length && transport[8 + |payload|..] == old(transport[8 + |payload|..])
  {
    var alignedLen := Aligned(|payload|);
    var header := DoeEncapHeader(transport, secured, alignedLen % 0x1_0000_0000);
    if header.IsFailure() {
      return header.PropagateFailure();
    }
    if transport.Length < DOE_HEADER_SIZE + alignedLen {
      return Err(EncapFail);
    }
    DoeFill(payload, transport, DOE_HEADER_SIZE + alignedLen);
    r := Ok(DOE_HEADER_SIZE + alignedLen);
    CastKeeps(alignedLen);
  }

  lemma CastKeeps(n: nat)
    ensures n < 0x1_0000_0000 ==> n % 0x1_0000_0000 == n
  {
  }

  method DoeFill(payload: bytes, transport: array<byte>, end: nat)
    requires DOE_HEADER_SIZE + |payload| <= end <= transport.Length
    modifies transport
    ensures transport[..end][..DOE_HEADER_SIZE] == old(transport[..DOE_HEADER_SIZE])
    ensures transport[..end][DOE_HEADER_SIZE..DOE_HEADER_SIZE + |payload|] == payload
    ensures transport[DOE_HEADER_SIZE + |payload|..] == old(transport[DOE_HEADER_SIZE + |payload|..])
  {
    CopyInto(transport, DOE_HEADER_SIZE, payload);
    assert transport[..end][..DOE_HEADER_SIZE] == transport[..DOE_HEADER_SIZE];
    assert transport[..end][DOE_HEADER_SIZE..DOE_HEADER_SIZE + |payload|] == transport[DOE_HEADER_SIZE..DOE_HEADER_SIZE + |payload|];
  }

  method DoeEncapHeader(transport: array<byte>, secured: bool, payloadLength: nat) returns (r: Outcome<()>)
    requires payloadLength < 0x1_0000_0000
    modifies transport
    ensures if transport.Length < 4 then r == Err(EncapFail)
            else if (payloadLength + 8) / 4 > DOE_MAX_DWORDS then r == Abort
            else if transport.Length < DOE_HEADER_SIZE then r == Err(EncapFail)
            else r == Ok(()) && transport[..DOE_HEADER_SIZE] == DoeHeader(secured, payloadLength)
                 && transport[DOE_HEADER_SIZE..] == old(transport[DOE_HEADER_SIZE..])
  {
    var writer := new Writer(transport, 0);
    r := DoeWriteHeader(writer, secured, payloadLength);
    if r.Ok? {
      SplicedReads(old(transport[..]), 0, DoeHeader(secured, payloadLength));
    }
  }

  method DoeReadHeader(reader: Reader) returns (r: Option<(nat, byte, nat)>)
    requires reader.Valid() && reader.offs == 0
    modifies reader
    ensures reader.Valid()
    ensures r.Some? <==> |reader.buf| >= DOE_HEADER_SIZE && DoePayload(FromLe(reader.buf[4..8])).Some?
    ensures r.Some? ==> reader.offs == DOE_HEADER_SIZE && r.value.0 == FromLe(reader.buf[..2]) && r.value.1 == reader.buf[2]
                        && r.value.2 == DoePayload(FromLe(reader.buf[4..8])).value
  {
    var vendor := reader.ReadLe(2);
    if vendor.None? {
      return None;
    }
    var objectType := reader.ReadU8();
    if objectType.None? {
      return None;
    }
    var reserved := reader.ReadU8();
    if reserved.None? {
      return None;
    }
    var length := reader.ReadLe(4);
    if length.None? {
      return None;
    }
    var dwords := length.value % DOE_MAX_DWORDS;
    if dwords == 0 {
      dwords := DOE_MAX_DWORDS;
    }
    if dwords < 2 {
      return None;
    }
    r := Some((vendor.value, objectType.value, 4 * dwords - 8));
  }

  method DoeDecap(transport: bytes, spdm: array<byte>) returns (r: Outcome<(nat, bool)>)
    modifies spdm
    ensures var d := Decap(PciDoe, transport, spdm.Length);
            if d.Ok? then r == Ok((|d.value.payload|, d.value.secured)) && spdm[..|d.value.payload|] == d.value.payload
            else d.Err? && r == Err(d.status)
    ensures var size := if |transport| < 8 then 0 else ObjectSize(FromLe(transport[4..8]));
            if |transport| >= 8 && FromLe(transport[..2]) == 1 && (transport[2] == 1 || transport[2] == 2)
               && 8 <= size <= |transport| && size - 8 <= spdm.Length
            then r == Ok((size - 8, transport[2] == 2)) && spdm[..size - 8] == transport[8..size] && spdm[size - 8..] == old(spdm[size - 8..])
            else r == Err(DecapFail) && unchanged(spdm)
  {
    DecapMeans(transport, spdm.Length);
    var reader := new Reader(transport);
    var header := DoeReadHeader(reader);
    if header.None? {
      return Err(DecapFail);
    }
    var (vendor, objectType, size) := header.value;
    if vendor != 1 || (objectType != DOE_SPDM && objectType != DOE_SECURED_SPDM) {
      return Err(DecapFail);
    }
    if |transport| < DOE_HEADER_SIZE + size || spdm.Length < size {
      return Err(DecapFail);
    }
    CopyInto(spdm, 0, transport[DOE_HEADER_SIZE..DOE_HEADER_SIZE + size]);
    r := Ok((size, objectType == DOE_SECURED_SPDM));
  }
}
