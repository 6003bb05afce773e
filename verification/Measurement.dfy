/** The measurement record codec: DMTF measurement blocks and the verifier of a whole record. */
module Measurement {
  import opened Bytes
  import opened Codec

  const MAX_MEASUREMENT_RECORD_SIZE: nat := 4000
  const MAX_MEASUREMENT_VALUE_LEN: nat := 1024

  /** The negotiated measurement hash algorithm; asking for its size aborts when none is selected. */
  datatype MeasurementHash = Unselected | RawBitStream | Hash(size: nat)

  type Kind = n: nat | n < 128

  /** A DMTF measurement. `kind` is its type, `raw` tells a raw bit stream from a digest. */
  datatype Dmtf = Dmtf(kind: Kind, raw: bool, value: bytes) {
    predicate WellFormed(hash: MeasurementHash) {
      && |value| <= MAX_MEASUREMENT_VALUE_LEN
      && (5 <= kind <= 7 ==> raw)
      && (!raw ==> hash == Hash(|value|))
    }

    function TypeByte(): byte {
      kind + if raw then 128 else 0
    }

    function Encoded(): (s: bytes)
      ensures |s| == 3 + |value|
    {
      [TypeByte()] + Le(|value|, 2) + value
    }
  }

  datatype Block = Block(index: byte, size: nat, measurement: Dmtf) {
    function Length(): nat {
      7 + |measurement.value|
    }

    predicate WellFormed(hash: MeasurementHash) {
      size == 3 + |measurement.value| && measurement.WellFormed(hash)
    }

    function Encoded(): (s: bytes)
      ensures |s| == Length()
    {
      [index, 1] + Le(size, 2) + measurement.Encoded()
    }
  }

  /** The measurement in front of `data`. */
  function ReadDmtf(data: bytes, hash: MeasurementHash): (r: Outcome<Dmtf>)
    ensures r.Ok? ==> 3 + |r.value.value| <= |data| && r.value.WellFormed(hash)
  {
    if |data| < 3 then Err(Malformed)
    else
      var kind, raw, size := data[0] % 128, data[0] >= 128, FromLe(data[1..3]);
      if (5 <= kind <= 7 && !raw) || size > MAX_MEASUREMENT_VALUE_LEN then Err(Malformed)
      else if !raw && hash.Unselected? then Abort
      else if (!raw && hash != Hash(size)) || |data| < 3 + size then Err(Malformed)
      else Ok(Dmtf(kind, raw, data[3..3 + size]))
  }

  /** The block in front of `data`. Of the specification byte only the DMTF bit is looked at. */
  function ReadBlock(data: bytes, hash: MeasurementHash): (r: Outcome<Block>)
    ensures r.Ok? ==> r.value.Length() <= |data| && r.value.WellFormed(hash)
  {
    if |data| < 4 || data[1] % 2 != 1 then Err(Malformed)
    else
      var size := FromLe(data[2..4]);
      if size > 3 + MAX_MEASUREMENT_VALUE_LEN then Err(Malformed)
      else
        var m :- ReadDmtf(data[4..], hash);
        if size != 3 + |m.value| then Err(Malformed) else Ok(Block(data[0], size, m))
  }

  /** Which bytes are a block, and what it says: index, a specification with the DMTF bit, the size of the
      measurement; its type, below 128 a digest of the selected hash and from 128 on raw; the size of the value,
      at most 1024; the value. Types 5 to 7 have no digest form. */
  lemma ReadBlockIff(data: bytes, hash: MeasurementHash)
    ensures var ok := && |data| >= 7 && data[1] % 2 == 1 && FromLe(data[5..7]) <= 1024 && |data| >= 7 + FromLe(data[5..7])
                      && FromLe(data[2..4]) == 3 + FromLe(data[5..7])
                      && (data[4] < 128 ==> (data[4] < 5 || data[4] > 7) && hash == Hash(FromLe(data[5..7])));
            && (ReadBlock(data, hash).Ok? <==> ok)
            && (ok ==> ReadBlock(data, hash).value ==
                       Block(data[0], FromLe(data[2..4]), Dmtf(data[4] % 128, data[4] >= 128, data[7..7 + FromLe(data[5..7])])))
            && (ReadBlock(data, hash).Err? ==> ReadBlock(data, hash).status == Malformed)
  {
    if |data| >= 7 {
      assert data[4..][0] == data[4] && data[4..][1..3] == data[5..7];
      if |data| >= 7 + FromLe(data[5..7]) {
        assert data[4..][3..3 + FromLe(data[5..7])] == data[7..7 + FromLe(data[5..7])];
      }
    }
  }

  /** The bytes of an encoded block. */
  lemma BlockLayout(b: Block)
    requires b.size < 0x1_0000 && |b.measurement.value| < 0x1_0000
    ensures var s := b.Encoded();
            && |s| == 7 + |b.measurement.value| && s[0] == b.index && s[1] == 1 && FromLe(s[2..4]) == b.size
            && s[4] == b.measurement.kind + (if b.measurement.raw then 128 else 0)
            && FromLe(s[5..7]) == |b.measurement.value| && s[7..] == b.measurement.value
  {
    var s := b.Encoded();
    Pow256Values();
    FromLeOfLe(b.size, 2);
    FromLeOfLe(|b.measurement.value|, 2);
    assert s[2..4] == Le(b.size, 2) && s[5..7] == Le(|b.measurement.value|, 2);
  }

  /** `data` is exactly these blocks, one after the other. */
  ghost predicate Splits(data: bytes, hash: MeasurementHash, blocks: seq<Block>)
    decreases |blocks|
  {
    if blocks == [] then data == []
    else ReadBlock(data, hash) == Ok(blocks[0]) && Splits(data[blocks[0].Length()..], hash, blocks[1..])
  }

  /** Strictly increasing indices above `floor`. */
  ghost predicate IncreasingFrom(floor: nat, blocks: seq<Block>) {
    && (forall i :: 0 <= i < |blocks| ==> floor < blocks[i].index)
    && forall i, j :: 0 <= i < j < |blocks| ==> blocks[i].index < blocks[j].index
  }

  // The verifier

  /** What remains of the verification when `count` blocks are due and the last index was `floor`. */
  function Verify(count: nat, floor: nat, data: bytes, hash: MeasurementHash): (r: Outcome<bool>)
    ensures !r.Err?
    decreases count
  {
    if count == 0 then Ok(data == [])
    else
      match ReadBlock(data, hash)
      case Ok(b) => if b.index <= floor then Ok(false) else Verify(count - 1, b.index, data[b.Length()..], hash)
      case Err(_) => Ok(false)
      case Abort => Abort
  }

  lemma IncreasingTail(floor: nat, blocks: seq<Block>)
    requires blocks != []
    ensures IncreasingFrom(floor, blocks) <==> floor < blocks[0].index && IncreasingFrom(blocks[0].index, blocks[1..])
  {
    var rest := blocks[1..];
    assert forall i :: 1 <= i < |blocks| ==> blocks[i] == rest[i - 1];
  }

  /** A verified record is these blocks. */
  lemma {:induction false} Accepts(count: nat, floor: nat, data: bytes, hash: MeasurementHash, blocks: seq<Block>)
    requires |blocks| == count && Splits(data, hash, blocks) && IncreasingFrom(floor, blocks)
    ensures Verify(count, floor, data, hash) == Ok(true)
    decreases count
  {
    if count > 0 {
      IncreasingTail(floor, blocks);
      Accepts(count - 1, blocks[0].index, data[blocks[0].Length()..], hash, blocks[1..]);
    }
  }

  lemma {:induction false} Accepted(count: nat, floor: nat, data: bytes, hash: MeasurementHash) returns (blocks: seq<Block>)
    requires Verify(count, floor, data, hash) == Ok(true)
    ensures |blocks| == count && Splits(data, hash, blocks) && IncreasingFrom(floor, blocks)
    decreases count
  {
    if count == 0 {
      blocks := [];
    } else {
      var b := ReadBlock(data, hash).value;
      var rest := Accepted(count - 1, b.index, data[b.Length()..], hash);
      blocks := [b] + rest;
      assert blocks[1..] == rest;
      IncreasingTail(floor, blocks);
    }
  }

  /** A record is accepted exactly when its data is `count` readable blocks with strictly increasing
      non-zero indices and nothing left over. */
  lemma AcceptedIff(count: nat, data: bytes, hash: MeasurementHash)
    ensures Verify(count, 0, data, hash) == Ok(true)
            <==> exists blocks :: |blocks| == count && Splits(data, hash, blocks) && IncreasingFrom(0, blocks)
  {
    if Verify(count, 0, data, hash) == Ok(true) {
      var blocks := Accepted(count, 0, data, hash);
    }
    forall blocks | |blocks| == count && Splits(data, hash, blocks) && IncreasingFrom(0, blocks)
      ensures Verify(count, 0, data, hash) == Ok(true)
    {
      Accepts(count, 0, data, hash, blocks);
    }
  }

  /** Only a missing measurement hash algorithm aborts the verification. */
  lemma {:induction false} NeverAborts(count: nat, floor: nat, data: bytes, hash: MeasurementHash)
    requires !hash.Unselected?
    ensures Verify(count, floor, data, hash).Ok?
    decreases count
  {
    if count > 0 && ReadBlock(data, hash).Ok? {
      var b := ReadBlock(data, hash).value;
      NeverAborts(count - 1, b.index, data[b.Length()..], hash);
    }
  }

  /** Data splits in at most one way. */
  lemma {:induction false} SplitsUnique(data: bytes, hash: MeasurementHash, a: seq<Block>, b: seq<Block>)
    requires Splits(data, hash, a) && Splits(data, hash, b)
    ensures a == b
    decreases |a|
  {
    if a != [] && b != [] {
      SplitsUnique(data[a[0].Length()..], hash, a[1..], b[1..]);
      assert a == [a[0]] + a[1..] && b == [b[0]] + b[1..];
    }
  }

  // Round trip

  lemma DmtfReadsBack(m: Dmtf, hash: MeasurementHash, rest: bytes)
    requires m.WellFormed(hash)
    ensures ReadDmtf(m.Encoded() + rest, hash) == Ok(m)
  {
    var data := m.Encoded() + rest;
    Pow256Values();
    FromLeOfLe(|m.value|, 2);
    assert data[0] == m.TypeByte() && data[1..3] == Le(|m.value|, 2) && data[3..3 + |m.value|] == m.value;
  }

  lemma BlockReadsBack(b: Block, hash: MeasurementHash, rest: bytes)
    requires b.WellFormed(hash)
    ensures ReadBlock(b.Encoded() + rest, hash) == Ok(b)
  {
    var data := b.Encoded() + rest;
    Pow256Values();
    FromLeOfLe(b.size, 2);
    DmtfReadsBack(b.measurement, hash, rest);
    assert data[2..4] == Le(b.size, 2) && data[4..] == b.measurement.Encoded() + rest;
  }

  function EncodedAll(blocks: seq<Block>): bytes {
    if blocks == [] then [] else blocks[0].Encoded() + EncodedAll(blocks[1..])
  }

  lemma {:induction false} BlocksReadBack(blocks: seq<Block>, hash: MeasurementHash)
    requires forall b :: b in blocks ==> b.WellFormed(hash)
    ensures Splits(EncodedAll(blocks), hash, blocks)
    decreases |blocks|
  {
    if blocks != [] {
      BlockReadsBack(blocks[0], hash, EncodedAll(blocks[1..]));
      BlocksReadBack(blocks[1..], hash);
      assert EncodedAll(blocks)[blocks[0].Length()..] == EncodedAll(blocks[1..]);
    }
  }

  lemma {:induction false} IndexAtLeast(blocks: seq<Block>, i: nat)
    requires IncreasingFrom(0, blocks) && i < |blocks|
    ensures i < blocks[i].index
  {
    if i > 0 {
      IndexAtLeast(blocks, i - 1);
    }
  }

  /** A record as it is carried: the number of blocks and their bytes. */
  datatype Record = Record(count: byte, data: bytes) {
    function Encoded(): bytes {
      [count] + Le(|data|, 3) + data
    }
  }

  /** The record in front of `data`, before it is verified. */
  function TakeRecord(data: bytes): (r: Option<Record>)
    ensures r.Some? ==> |r.value.data| <= MAX_MEASUREMENT_RECORD_SIZE && 4 + |r.value.data| <= |data|
  {
    if |data| < 4 then None
    else
      var length := FromLe(data[1..4]);
      if length > MAX_MEASUREMENT_RECORD_SIZE || |data| < 4 + length then None
      else Some(Record(data[0], data[4..4 + length]))
  }

  function ReadRecord(data: bytes, hash: MeasurementHash): (r: Outcome<Record>) {
    match TakeRecord(data)
    case None => Err(Malformed)
    case Some(record) =>
      var ok :- Verify(record.count, 0, record.data, hash);
      if ok then Ok(record) else Err(Malformed)
  }

  /** A record is one byte for the number of blocks, three for the length, and at most 4000 bytes of blocks. */
  lemma ReadRecordIff(data: bytes, hash: MeasurementHash)
    ensures ReadRecord(data, hash).Ok? <==>
            && |data| >= 4 && FromLe(data[1..4]) <= 4000 && |data| >= 4 + FromLe(data[1..4])
            && Verify(data[0], 0, data[4..4 + FromLe(data[1..4])], hash) == Ok(true)
    ensures ReadRecord(data, hash).Ok? ==> ReadRecord(data, hash).value == Record(data[0], data[4..4 + FromLe(data[1..4])])
    ensures !hash.Unselected? ==> !ReadRecord(data, hash).Abort?
  {
    if TakeRecord(data).Some? && !hash.Unselected? {
      NeverAborts(data[0], 0, TakeRecord(data).value.data, hash);
    }
  }

  /** Well-formed blocks with strictly increasing non-zero indices that fit a record are accepted, with
      anything after them, and the record splits into the same blocks. */
  lemma RecordReadsBack(blocks: seq<Block>, hash: MeasurementHash, rest: bytes)
    requires forall b :: b in blocks ==> b.WellFormed(hash)
    requires IncreasingFrom(0, blocks) && |EncodedAll(blocks)| <= MAX_MEASUREMENT_RECORD_SIZE
    ensures |blocks| < 256
    ensures var record := Record(|blocks|, EncodedAll(blocks));
            ReadRecord(record.Encoded() + rest, hash) == Ok(record) && Splits(record.data, hash, blocks)
  {
    if blocks != [] {
      IndexAtLeast(blocks, |blocks| - 1);
    }
    BlocksReadBack(blocks, hash);
    Accepts(|blocks|, 0, EncodedAll(blocks), hash, blocks);
    HeaderReadsBack(Record(|blocks|, EncodedAll(blocks)), rest);
  }

  lemma HeaderReadsBack(record: Record, rest: bytes)
    requires |record.data| <= MAX_MEASUREMENT_RECORD_SIZE
    ensures TakeRecord(record.Encoded() + rest) == Some(record)
  {
    var data := record.Encoded() + rest;
    Pow256Values();
    FromLeOfLe(|record.data|, 3);
    assert data[1..4] == Le(|record.data|, 3) && data[4..4 + |record.data|] == record.data;
  }

  // The readers and the verifier's loop

  /** Bytes read one by one into a fixed buffer of `capacity`. */
  method ReadInto(r: Reader, size: nat, capacity: nat) returns (value: Option<bytes>)
    requires r.Valid() && size <= capacity
    modifies r
    ensures r.Valid()
    ensures value.Some? <==> old(r.offs) + size <= |r.buf|
    ensures value.Some? ==> r.offs == old(r.offs) + size && value.value == r.buf[old(r.offs)..r.offs]
  {
    var filled := new byte[capacity](_ => 0);
    for i := 0 to size
      invariant r.Valid() && r.offs == old(r.offs) + i
      invariant filled[..i] == r.buf[old(r.offs)..old(r.offs) + i]
    {
      var b := r.ReadU8();
      if b.None? {
        return None;
      }
      filled[i] := b.value;
    }
    value := Some(filled[..size]);
  }

  method SpdmReadDmtf(r: Reader, hash: MeasurementHash) returns (m: Outcome<Dmtf>)
    requires r.Valid()
    modifies r
    ensures r.Valid() && m == ReadDmtf(r.buf[old(r.offs)..], hash)
    ensures m.Ok? ==> r.offs == old(r.offs) + 3 + |m.value.value|
  {
    ghost var data := r.buf[r.offs..];
    var final := r.ReadU8();
    if final.None? {
      return Err(Malformed);
    }
    var kind, raw := final.value % 128, final.value >= 128;
    if 5 <= kind <= 7 && !raw {
      return Err(Malformed);
    }
    var size := r.ReadLe(2);
    if size.None? {
      return Err(Malformed);
    }
    assert data[1..3] == r.buf[old(r.offs) + 1..r.offs];
    if size.value > MAX_MEASUREMENT_VALUE_LEN {
      return Err(Malformed);
    }
    if !raw {
      if hash.Unselected? {
        return Abort;
      }
      if hash != Hash(size.value) {
        return Err(Malformed);
      }
    }
    var value := ReadInto(r, size.value, MAX_MEASUREMENT_VALUE_LEN);
    if value.None? {
      return Err(Malformed);
    }
    assert data[3..3 + size.value] == value.value;
    m := Ok(Dmtf(kind, raw, value.value));
  }

  method SpdmReadBlock(r: Reader, hash: MeasurementHash) returns (b: Outcome<Block>)
    requires r.Valid()
    modifies r
    ensures r.Valid() && b == ReadBlock(r.buf[old(r.offs)..], hash)
    ensures b.Ok? ==> r.offs == old(r.offs) + b.value.Length()
  {
    ghost var data := r.buf[r.offs..];
    var index := r.ReadU8();
    if index.None? {
      return Err(Malformed);
    }
    var specification := r.ReadU8();
    if specification.None? || specification.value % 2 != 1 {
      return Err(Malformed);
    }
    var size := r.ReadLe(2);
    if size.None? {
      return Err(Malformed);
    }
    assert data[2..4] == r.buf[old(r.offs) + 2..r.offs] && data[4..] == r.buf[r.offs..];
    if size.value > 3 + MAX_MEASUREMENT_VALUE_LEN {
      return Err(Malformed);
    }
    var m := SpdmReadDmtf(r, hash);
    if m.IsFailure() {
      return m.PropagateFailure();
    }
    if size.value != 3 + |m.value.value| {
      return Err(Malformed);
    }
    b := Ok(Block(index.value, size.value, m.value));
  }

  /** One iteration: the verdict, or the index of a block that leaves it to those after it. */
  method VerifyNext(r: Reader, ghost count: nat, floor: byte, hash: MeasurementHash)
    returns (verdict: Option<Outcome<bool>>, index: byte)
    requires r.Valid() && count > 0
    modifies r
    ensures r.Valid()
    ensures verdict.Some? ==> verdict.value == Verify(count, floor, r.buf[old(r.offs)..], hash)
    ensures verdict.None? ==> Verify(count - 1, index, r.buf[r.offs..], hash) == Verify(count, floor, r.buf[old(r.offs)..], hash)
  {
    ghost var data := r.buf[r.offs..];
    var b := SpdmReadBlock(r, hash);
    if b.Abort? {
      return Some(Abort), 0;
    }
    if !b.Ok? || b.value.index <= floor {
      return Some(Ok(false)), 0;
    }
    assert data[b.value.Length()..] == r.buf[r.offs..];
    return None, b.value.index;
  }

  /** `verify_measurement_record` */
  method VerifyMeasurementRecord(record: Record, hash: MeasurementHash) returns (ok: Outcome<bool>)
    ensures ok == Verify(record.count, 0, record.data, hash)
  {
    var reader := new Reader(record.data);
    assert record.data[0..] == record.data;
    ok := VerifyBlocks(reader, record.count, hash);
  }

  lemma VerifyDone(floor: nat, data: bytes, hash: MeasurementHash)
    ensures Verify(0, floor, data, hash) == Ok(|data| == 0)
  {
  }

  method VerifyBlocks(r: Reader, count: nat, hash: MeasurementHash) returns (ok: Outcome<bool>)
    requires r.Valid()
    modifies r
    ensures ok == Verify(count, 0, r.buf[old(r.offs)..], hash)
  {
    ghost var verdict := Verify(count, 0, r.buf[r.offs..], hash);
    var curIndex: byte := 0;
    var due := count;
    while due > 0
      invariant r.Valid() && Verify(due, curIndex, r.buf[r.offs..], hash) == verdict
    {
      var stop, index := VerifyNext(r, due, curIndex, hash);
      if stop.Some? {
        return stop.value;
      }
      curIndex := index;
      due := due - 1;
    }
    VerifyDone(curIndex, r.buf[r.offs..], hash);
    ok := Ok(!(r.offs < |r.buf|));
  }

  method ReadRecordData(r: Reader) returns (record: Option<Record>)
    requires r.Valid()
    modifies r
    ensures r.Valid() && record == TakeRecord(r.buf[old(r.offs)..])
    ensures record.Some? ==> r.offs == old(r.offs) + 4 + |record.value.data|
  {
    ghost var data := r.buf[r.offs..];
    var count := r.ReadU8();
    if count.None? {
      return None;
    }
    var length := r.ReadLe(3);
    if length.None? {
      return None;
    }
    assert data[1..4] == r.buf[old(r.offs) + 1..r.offs];
    if length.value > MAX_MEASUREMENT_RECORD_SIZE {
      return None;
    }
    var read := ReadInto(r, length.value, MAX_MEASUREMENT_RECORD_SIZE);
    if read.None? {
      return None;
    }
    assert data[4..4 + length.value] == read.value;
    record := Some(Record(count.value, read.value));
  }

  /** Reading a whole record. */
  method SpdmReadRecord(r: Reader, hash: MeasurementHash) returns (record: Outcome<Record>)
    requires r.Valid()
    modifies r
    ensures r.Valid() && record == ReadRecord(r.buf[old(r.offs)..], hash)
    ensures record.Ok? ==> r.offs == old(r.offs) + 4 + |record.value.data|
  {
    var read := ReadRecordData(r);
    if read.None? {
      return Err(Malformed);
    }
    var ok := VerifyMeasurementRecord(read.value, hash);
    if ok.IsFailure() {
      return ok.PropagateFailure();
    }
    record := if ok.value then Ok(read.value) else Err(Malformed);
  }

  // The encoders

  method EmitBytes(w: Writer, value: bytes, ghost before: bytes, ghost at: nat, ghost s: bytes) returns (ok: bool)
    requires Emitted(w, before, at, s)
    modifies w, w.buf
    ensures ok <==> at + |s| + |value| <= |before|
    ensures ok ==> Emitted(w, before, at, s + value)
  {
    assert s + value[..0] == s;
    for i := 0 to |value|
      invariant Emitted(w, before, at, s + value[..i])
    {
      ok := EmitByte(w, value[i], before, at, s + value[..i]);
      if !ok {
        return;
      }
      assert s + value[..i] + [value[i]] == s + value[..i + 1];
    }
    assert value[..|value|] == value;
    ok := true;
  }

  method EmitDmtf(w: Writer, m: Dmtf, ghost before: bytes, ghost at: nat, ghost s: bytes) returns (ok: bool)
    requires Emitted(w, before, at, s)
    modifies w, w.buf
    ensures ok <==> at + |s| + 3 + |m.value| <= |before|
    ensures ok ==> Emitted(w, before, at, s + m.Encoded())
  {
    ok := EmitByte(w, m.TypeByte(), before, at, s);
    if !ok {
      return;
    }
    ok := EmitU16(w, |m.value|, before, at, s + [m.TypeByte()]);
    if !ok {
      return;
    }
    ok := EmitBytes(w, m.value, before, at, s + [m.TypeByte()] + Le(|m.value|, 2));
    assert s + [m.TypeByte()] + Le(|m.value|, 2) + m.value == s + m.Encoded();
  }

  /** A block is written whole exactly when it fits. */
  method SpdmEncodeBlock(w: Writer, b: Block) returns (r: Outcome<nat>)
    requires w.Valid()
    modifies w, w.buf
    ensures r.Ok? <==> old(w.base + w.offs) + b.Length() <= w.buf.Length
    ensures r == Ok(b.Length()) || r == Err(BufferFull)
    ensures r.Ok? ==> w.buf[..] == old(w.WithWritten(b.Encoded())) && w.offs == old(w.offs) + b.Length()
  {
    ghost var before, at := w.buf[..], w.base + w.offs;
    assert Emitted(w, before, at, []);
    var ok := EmitByte(w, b.index, before, at, []);
    if !ok {
      return Err(BufferFull);
    }
    ok := EmitByte(w, 1, before, at, [] + [b.index]);
    if !ok {
      return Err(BufferFull);
    }
    ok := EmitU16(w, b.size, before, at, [] + [b.index] + [1]);
    if !ok {
      return Err(BufferFull);
    }
    ok := EmitDmtf(w, b.measurement, before, at, [] + [b.index] + [1] + Le(b.size, 2));
    if !ok {
      return Err(BufferFull);
    }
    assert [] + [b.index] + [1] + Le(b.size, 2) + b.measurement.Encoded() == b.Encoded();
    r := Ok(b.Length());
  }

  /** A record is written whole exactly when it fits. */
  method SpdmEncodeRecord(w: Writer, record: Record) returns (r: Outcome<nat>)
    requires w.Valid()
    modifies w, w.buf
    ensures r.Ok? <==> old(w.base + w.offs) + 4 + |record.data| <= w.buf.Length
    ensures r == Ok(4 + |record.data|) || r == Err(BufferFull)
    ensures r.Ok? ==> w.buf[..] == old(w.WithWritten(record.Encoded())) && w.offs == old(w.offs) + 4 + |record.data|
  {
    ghost var before, at := w.buf[..], w.base + w.offs;
    assert Emitted(w, before, at, []);
    var ok := EmitByte(w, record.count, before, at, []);
    if !ok {
      return Err(BufferFull);
    }
    ok := EmitU24(w, |record.data|, before, at, [] + [record.count]);
    if !ok {
      return Err(BufferFull);
    }
    ok := EmitBytes(w, record.data, before, at, [] + [record.count] + Le(|record.data|, 3));
    if !ok {
      return Err(BufferFull);
    }
    assert [] + [record.count] + Le(|record.data|, 3) + record.data == record.Encoded();
    r := Ok(4 + |record.data|);
  }
}
