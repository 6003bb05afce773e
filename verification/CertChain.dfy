/** The DER certificate-chain walker (lengths: clause 8.1.3 of X.690; certificates: section 4.1 of
    RFC 5280). */
module CertChain {
  import opened Bytes
  import Cuts

  const SEQUENCE: byte := 0x30
  const OBJECT_IDENTIFIER: byte := 0x06
  const MULTI_OCTET: nat := 0x80

  datatype Length = Length(value: nat, consumed: nat)

  /** `a + b` on `usize`. */
  function Add(a: nat, b: nat): Outcome<nat> {
    if a + b > U64_MAX then Abort else Ok(a + b)
  }

  /** `&data[at..]` */
  function From(data: bytes, at: nat): Outcome<bytes> {
    if at > |data| then Abort else Ok(data[at..])
  }

  /** The definite length forms: one octet below 0x80, or a count and that many big-endian octets. More
      than eight octets overrun the buffer of the implementation. */
  function DerLength(data: bytes): (r: Outcome<Length>)
    ensures r.Ok? ==> 1 <= r.value.consumed <= |data|
  {
    if |data| < 1 then Err(VerifFail)
    else if data[0] < MULTI_OCTET then Ok(Length(data[0], 1))
    else
      var count := data[0] - MULTI_OCTET;
      if |data| < count + 1 || count == 0 then Err(VerifFail)
      else if count > 8 then Abort
      else Ok(Length(FromBe(data[1..count + 1]), count + 1))
  }

  function SequenceTag(data: bytes): (r: Outcome<()>)
    ensures r.Ok? ==> |data| >= 1
  {
    if |data| < 1 || data[0] != SEQUENCE then Err(VerifFail) else Ok(())
  }

  /** `check_and_skip_common_tag`: the size of the element at the front. */
  function SkipTag(data: bytes): (r: Outcome<nat>)
    ensures r.Ok? ==> 2 <= r.value <= |data|
  {
    if |data| < 1 then Err(VerifFail)
    else
      var l :- DerLength(data[1..]);
      var size :- Add(1 + l.consumed, l.value);
      if |data| < size then Err(VerifFail) else Ok(size)
  }

  function SkipSequence(data: bytes): (r: Outcome<nat>)
    ensures r.Ok? ==> 2 <= r.value <= |data|
  {
    if |data| < 1 || data[0] != SEQUENCE then Err(VerifFail) else SkipTag(data)
  }

  function Version(data: bytes): (r: Outcome<nat>)
    ensures r.Ok? ==> r.value == 5 <= |data|
  {
    if |data| < 5 || data[0] != 0xA0 || data[1] != 3 || data[2] != 0x02 || data[3] != 1 || data[4] != 2 then Err(VerifFail)
    else Ok(5)
  }

  /** `check_object_identifier`; `want` is `None` when any identifier will do. */
  function Oid(data: bytes, want: Option<bytes>): Outcome<nat> {
    if |data| < 2 || data[0] != OBJECT_IDENTIFIER then Err(VerifFail)
    else if |data| < 2 + data[1] as int || data[1] >= MULTI_OCTET then Err(VerifFail)
    else if want.Some? && data[2..2 + data[1]] != want.value then Err(VerifFail)
    else Ok(2 + data[1] as int)
  }

  /** An AlgorithmIdentifier: a SEQUENCE that starts with the identifier. Its size is taken from its
      length field, which is not compared with what is there. */
  function AlgorithmId(data: bytes, want: Option<bytes>): (r: Outcome<nat>) {
    var _ :- SequenceTag(data);
    var l :- DerLength(data[1..]);
    var _ :- Oid(data[1 + l.consumed..], want);
    Add(1 + l.consumed, l.value)
  }

  /** The parts of a certificate, by how they are checked. */
  datatype Field = TbsCertificate | VersionNumber | Algorithm | Sequence | AnyElement

  /** The fields of a TBSCertificate that are checked: version, serial number, signature algorithm,
      issuer, validity, subject, public key. */
  const TBS_FIELDS: seq<Field> := [VersionNumber, AnyElement, Algorithm, Sequence, Sequence, Sequence, Sequence]

  const CERT_FIELDS: seq<Field> := [TbsCertificate, Algorithm, AnyElement]

  /** The start of the contents and the end of the element at the front. */
  function Element(data: bytes): (r: Outcome<(nat, nat)>)
    ensures r.Ok? ==> data != [] && data[0] == SEQUENCE && DerLength(data[1..]).Ok? && 2 <= r.value.0 <= |data|
    ensures r.Ok? ==> r.value.0 == 1 + DerLength(data[1..]).value.consumed
    ensures r.Ok? ==> r.value.1 == r.value.0 + DerLength(data[1..]).value.value
  {
    var _ :- SequenceTag(data);
    var l :- DerLength(data[1..]);
    var end :- Add(1 + l.consumed, l.value);
    Ok((1 + l.consumed, end))
  }

  function FieldSize(data: bytes, field: Field, want: Option<bytes>): (r: Outcome<nat>)
    decreases |data|, 0
  {
    match field
    case VersionNumber => Version(data)
    case Algorithm => AlgorithmId(data, want)
    case Sequence => SkipSequence(data)
    case AnyElement => SkipTag(data)
    case TbsCertificate =>
      var e :- Element(data);
      if |data| < e.1 then Err(VerifFail)
      else
        var _ :- WalkFields(data[e.0..], TBS_FIELDS, want);
        Ok(e.1)
  }

  /** Consecutive fields; stepping past the end of the data is a panic. */
  function WalkFields(data: bytes, fields: seq<Field>, want: Option<bytes>): (r: Outcome<nat>)
    ensures r.Ok? ==> r.value <= |data|
    decreases |data|, 1 + |fields|
  {
    if fields == [] then Ok(0)
    else
      var n :- FieldSize(data, fields[0], want);
      var rest :- From(data, n);
      var m :- WalkFields(rest, fields[1..], want);
      Ok(n + m)
  }

  /** What `check_cert_format` does after choosing the identifier to look for. */
  function CertWith(cert: bytes, want: Option<bytes>): (r: Outcome<nat>)
    ensures r.Ok? ==> 2 <= r.value <= |cert|
    ensures r.Ok? ==> cert[0] == SEQUENCE && DerLength(cert[1..]).Ok?
                      && r.value == 1 + DerLength(cert[1..]).value.consumed + DerLength(cert[1..]).value.value
  {
    var e :- Element(cert);
    var n :- WalkFields(cert[e.0..], CERT_FIELDS, want);
    if e.0 + n == e.1 then Ok(e.1) else Err(VerifFail)
  }

  /** `check_cert_format`: a certificate that fills the rest of the chain is the leaf. */
  function Cert(cert: bytes, oid: Option<bytes>): (r: Outcome<nat>)
    ensures r.Ok? ==> 2 <= r.value <= |cert|
  {
    CertWith(cert, if IsLeaf(cert) then oid else None)
  }

  predicate IsLeaf(cert: bytes) {
    && |cert| >= 1 && DerLength(cert[1..]).Ok?
    && |cert| == 1 + DerLength(cert[1..]).value.consumed + DerLength(cert[1..]).value.value
  }

  /** `bounds` cuts the chain into certificates, each accepted at its place: the wanted identifier is
      looked for in the last one and in no other. */
  ghost predicate Certificates(chain: bytes, oid: Option<bytes>, bounds: seq<nat>) {
    && |bounds| >= 1 && bounds[0] == 0 && bounds[|bounds| - 1] == |chain|
    && (forall i :: 0 <= i < |bounds| ==> bounds[i] <= |chain|)
    && (forall i: nat {:trigger CertAt(chain, oid, bounds, i)} :: i + 1 < |bounds| ==> CertAt(chain, oid, bounds, i))
  }

  ghost predicate CertAt(chain: bytes, oid: Option<bytes>, bounds: seq<nat>, i: nat) {
    && i + 1 < |bounds| && bounds[i] < bounds[i + 1] <= |chain|
    && CertWith(chain[bounds[i]..], if i == |bounds| - 2 then oid else None) == Ok(bounds[i + 1] - bounds[i])
  }

  /** A complete SEQUENCE element and nothing else. */
  predicate IsSequenceTlv(s: bytes) {
    IsLeaf(s) && s[0] == SEQUENCE
  }

  /** The length forms: one octet below 0x80, or 0x80 and a count of one to eight big-endian octets. No octets
      at all, 0x80 alone, and octets that are missing are errors; more than eight a panic. */
  lemma DerLengthMeans(data: bytes)
    ensures DerLength(data) ==
            if data == [] then Err(VerifFail)
            else if data[0] < 0x80 then Ok(Length(data[0], 1))
            else if data[0] == 0x80 || |data| <= data[0] - 0x80 then Err(VerifFail)
            else if data[0] > 0x88 then Abort
            else Ok(Length(FromBe(data[1..data[0] - 0x80 + 1]), data[0] - 0x80 + 1))
  {
  }

  /** A length reads the same when the bytes after the element are cut off. */
  lemma DerLengthPrefix(data: bytes, k: nat)
    requires DerLength(data).Ok? && DerLength(data).value.consumed <= k <= |data|
    ensures DerLength(data[..k]) == DerLength(data)
  {
    if data[0] >= MULTI_OCTET {
      var count := data[0] - MULTI_OCTET;
      assert data[..k][1..count + 1] == data[1..count + 1];
    }
  }

  lemma CertIsTlv(cert: bytes, want: Option<bytes>)
    requires CertWith(cert, want).Ok?
    ensures IsSequenceTlv(cert[..CertWith(cert, want).value])
    ensures IsLeaf(cert) <==> CertWith(cert, want).value == |cert|
  {
    var k := CertWith(cert, want).value;
    DerLengthPrefix(cert[1..], k - 1);
    assert cert[..k][1..] == cert[1..][..k - 1];
  }

  /** A chain cut into certificates is exactly that many consecutive SEQUENCE elements. */
  lemma CertificatesAreTlvs(chain: bytes, oid: Option<bytes>, bounds: seq<nat>, i: nat)
    requires Certificates(chain, oid, bounds) && i + 1 < |bounds|
    ensures bounds[i] < bounds[i + 1] <= |chain| && IsSequenceTlv(chain[bounds[i]..bounds[i + 1]])
  {
    var cert := chain[bounds[i]..];
    assert CertAt(chain, oid, bounds, i);
    CertIsTlv(cert, if i == |bounds| - 2 then oid else None);
    assert cert[..bounds[i + 1] - bounds[i]] == chain[bounds[i]..bounds[i + 1]];
  }

  // The loops

  /** `check_length`: the octets are copied backwards into a little-endian `usize`. */
  method CheckLength(data: bytes) returns (r: Outcome<Length>)
    ensures r == DerLength(data)
  {
    if |data| < 1 {
      return Err(VerifFail);
    }
    if data[0] < MULTI_OCTET {
      return Ok(Length(data[0], 1));
    }
    var count := data[0] - MULTI_OCTET;
    if |data| < count + 1 || count == 0 {
      return Err(VerifFail);
    }
    var length := new byte[8](_ => 0);
    for i := 0 to count
      invariant i <= 8
      invariant forall j :: 0 <= j < i ==> length[j] == data[count - j]
      invariant forall j :: i <= j < 8 ==> length[j] == 0
    {
      if i >= length.Length {
        return Abort;
      }
      length[i] := data[count - i];
    }
    var octets := data[1..count + 1];
    assert length[..] == Reversed(octets) + seq(8 - count, _ => 0);
    FromLeZeros(Reversed(octets), 8 - count);
    FromLeReversed(octets);
    r := Ok(Length(FromLe(length[..]), count + 1));
  }

  function PieceOf(chain: bytes, oid: Option<bytes>): Cuts.Piece {
    (at: nat, last: bool) => if at <= |chain| then Found(CertWith(chain[at..], if last then oid else None)) else None
  }

  lemma PieceSane(chain: bytes, oid: Option<bytes>)
    ensures Cuts.Sane(|chain|, PieceOf(chain, oid))
  {
    var f := PieceOf(chain, oid);
    forall at: nat, last: bool | at <= |chain| && f(at, last).Some?
      ensures 0 < f(at, last).value <= |chain| - at
      ensures f(at, !last).Some? ==> f(at, !last) == f(at, last)
    {
      assert f(at, last) == Found(CertWith(chain[at..], if last then oid else None));
      assert f(at, !last) == Found(CertWith(chain[at..], if last then None else oid));
    }
  }

  lemma PieceNext(chain: bytes, oid: Option<bytes>, at: nat)
    requires at < |chain|
    ensures Cuts.Next(|chain|, PieceOf(chain, oid), at) == Found(Cert(chain[at..], oid))
  {
    var cert := chain[at..];
    var f := PieceOf(chain, oid);
    assert f(at, true) == Found(CertWith(cert, oid)) && f(at, false) == Found(CertWith(cert, None));
    if CertWith(cert, oid).Ok? {
      CertIsTlv(cert, oid);
    }
    if CertWith(cert, None).Ok? {
      CertIsTlv(cert, None);
    }
  }

  lemma PieceCut(chain: bytes, oid: Option<bytes>, b: seq<nat>)
    ensures Certificates(chain, oid, b) <==> Cuts.Cut(|chain|, PieceOf(chain, oid), b)
  {
    forall i: nat | i + 1 < |b| && b[i] <= |chain| && b[i + 1] <= |chain|
      ensures CertAt(chain, oid, b, i) <==> Cuts.CutAt(PieceOf(chain, oid), b, i)
    {
      var last := i == |b| - 2;
      assert PieceOf(chain, oid)(b[i], last) == Found(CertWith(chain[b[i]..], if last then oid else None));
    }
  }

  /** `check_cert_format` at an offset of the chain. */
  function CheckAt(chain: bytes, oid: Option<bytes>): nat -> Outcome<nat> {
    (at: nat) => if at > |chain| then Abort else Cert(chain[at..], oid)
  }

  /** The walk seen as cutting at offsets. */
  lemma AsCut(chain: bytes, oid: Option<bytes>)
    ensures Cuts.Sane(|chain|, PieceOf(chain, oid))
    ensures forall at: nat :: at < |chain| ==> Cuts.Next(|chain|, PieceOf(chain, oid), at) == Found(CheckAt(chain, oid)(at))
  {
    PieceSane(chain, oid);
    forall at: nat | at < |chain|
      ensures Cuts.Next(|chain|, PieceOf(chain, oid), at) == Found(CheckAt(chain, oid)(at))
    {
      PieceNext(chain, oid, at);
    }
  }

  function Found(r: Outcome<nat>): Option<nat> {
    if r.Ok? then Some(r.value) else None
  }

  /** After accepted pieces the walker stands at `bounds`' end, where the check fails this way. */
  ghost predicate StuckAt(n: nat, check: nat -> Outcome<nat>, f: Cuts.Piece, bounds: seq<nat>, failure: Outcome<nat>) {
    Cuts.Walked(n, f, bounds) && bounds[|bounds| - 1] < n && check(bounds[|bounds| - 1]) == failure
  }

  /** The loop of `check_cert_chain_format`, over the checks `check` makes at each offset. The walker
      reaches the end exactly, so the comparison after the loop never fails; each iteration moves it. */
  method Walk(n: nat, check: nat -> Outcome<nat>, ghost f: Cuts.Piece) returns (r: Outcome<nat>)
    requires Cuts.Sane(n, f)
    requires forall at: nat :: at < n ==> Cuts.Next(n, f, at) == Found(check(at))
    ensures r.Ok? ==> exists bounds :: Cuts.Cut(n, f, bounds) && |bounds| == r.value + 1
    ensures !r.Ok? ==> forall bounds :: !Cuts.Cut(n, f, bounds)
    ensures !r.Ok? ==> exists bounds :: StuckAt(n, check, f, bounds, r)
  {
    var walker: nat, count: nat := 0, 0;
    ghost var bounds: seq<nat> := [0];
    while walker < n
      invariant walker <= n && |bounds| == count + 1 && bounds[count] == walker
      invariant Cuts.Walked(n, f, bounds)
      decreases n - walker
    {
      var size := check(walker);
      if size.IsFailure() {
        Cuts.Stuck(n, f, bounds);
        assert StuckAt(n, check, f, bounds, size);
        return size;
      }
      Cuts.Extend(n, f, bounds, walker, size.value);
      bounds := bounds + [walker + size.value];
      walker := walker + size.value;
      count := count + 1;
    }
    assert walker == n;
    Cuts.Done(n, f, bounds);
    r := Ok(count);
  }

  // When the walker panics

  /** More length octets than the buffer for them holds, all of them there. */
  predicate LongLength(data: bytes) {
    |data| >= 1 && data[0] > MULTI_OCTET + 8 && |data| >= 1 + (data[0] - MULTI_OCTET)
  }

  /** The element at the front announces an end after position `limit`. */
  predicate EndsAfter(data: bytes, limit: nat) {
    && |data| >= 1 && DerLength(data[1..]).Ok?
    && 1 + DerLength(data[1..]).value.consumed + DerLength(data[1..]).value.value > limit
  }

  /** The header at the front has too many length octets, or announces an end that no `usize` holds. */
  predicate BadHeader(data: bytes) {
    |data| >= 1 && (LongLength(data[1..]) || EndsAfter(data, U64_MAX))
  }

  /** The contents of an element whose header is read. */
  function Contents(data: bytes): bytes
    requires |data| >= 1 && DerLength(data[1..]).Ok?
  {
    data[1 + DerLength(data[1..]).value.consumed..]
  }

  /** What a field must not be. An AlgorithmIdentifier whose identifier is accepted must not announce more
      than is left. */
  ghost predicate BadField(data: bytes, field: Field, want: Option<bytes>)
    decreases |data|, 0
  {
    match field
    case VersionNumber => false
    case AnyElement => BadHeader(data)
    case Sequence => |data| >= 1 && data[0] == SEQUENCE && BadHeader(data)
    case Algorithm =>
      && |data| >= 1 && data[0] == SEQUENCE
      && (LongLength(data[1..])
          || (DerLength(data[1..]).Ok? && Oid(Contents(data), want).Ok? && (EndsAfter(data, |data|) || EndsAfter(data, U64_MAX))))
    case TbsCertificate =>
      && |data| >= 1 && data[0] == SEQUENCE
      && (BadHeader(data) || (DerLength(data[1..]).Ok? && !EndsAfter(data, |data|) && BadFields(Contents(data), TBS_FIELDS, want)))
  }

  /** The fields before the `i`-th are accepted and it is reached at `at`. */
  predicate Reaches(data: bytes, fields: seq<Field>, want: Option<bytes>, i: nat, at: nat) {
    i < |fields| && at <= |data| && WalkFields(data, fields[..i], want) == Ok(at)
  }

  ghost predicate BadFields(data: bytes, fields: seq<Field>, want: Option<bytes>)
    decreases |data|, 1
  {
    exists i: nat, at: nat {:trigger Reaches(data, fields, want, i, at)} ::
      Reaches(data, fields, want, i, at) && BadField(data[at..], fields[i], want)
  }

  /** A certificate with a bad header, or with a bad field after accepted ones. */
  ghost predicate BadCert(cert: bytes, oid: Option<bytes>) {
    && |cert| >= 1 && cert[0] == SEQUENCE
    && (BadHeader(cert)
        || (DerLength(cert[1..]).Ok? && BadFields(Contents(cert), CERT_FIELDS, if IsLeaf(cert) then oid else None)))
  }

  lemma BadHeaderIff(data: bytes)
    requires |data| >= 1
    ensures DerLength(data[1..]).Abort? <==> LongLength(data[1..])
    ensures SkipTag(data).Abort? <==> BadHeader(data)
    ensures data[0] == SEQUENCE ==> (Element(data).Abort? <==> BadHeader(data))
  {
  }

  lemma BadAlgorithmIff(data: bytes, want: Option<bytes>)
    ensures BadField(data, Algorithm, want) <==>
            AlgorithmId(data, want).Abort? || (AlgorithmId(data, want).Ok? && AlgorithmId(data, want).value > |data|)
  {
    if |data| >= 1 {
      BadHeaderIff(data);
    }
  }

  /** A field is bad if and only if checking it panics, or stepping past it does. */
  lemma {:induction false} BadFieldIff(data: bytes, field: Field, want: Option<bytes>)
    ensures BadField(data, field, want) <==>
            FieldSize(data, field, want).Abort? || (FieldSize(data, field, want).Ok? && FieldSize(data, field, want).value > |data|)
    decreases |data|, 0
  {
    match field
    case VersionNumber =>
    case Algorithm => BadAlgorithmIff(data, want);
    case AnyElement =>
      if |data| >= 1 {
        BadHeaderIff(data);
      }
    case Sequence =>
      if |data| >= 1 {
        BadHeaderIff(data);
      }
    case TbsCertificate =>
      if |data| >= 1 {
        BadHeaderIff(data);
        if Element(data).Ok? {
          BadFieldsIff(Contents(data), TBS_FIELDS, want);
        }
      }
  }

  /** The first field is reached at once. */
  lemma ReachFirst(data: bytes, fields: seq<Field>, want: Option<bytes>, at: nat)
    requires fields != []
    ensures Reaches(data, fields, want, 0, at) <==> at == 0
  {
    assert fields[..0] == [];
  }

  /** A later field is reached past the first one. */
  lemma ReachLater(data: bytes, fields: seq<Field>, want: Option<bytes>, i: nat, at: nat)
    requires fields != [] && i > 0
    ensures var n := FieldSize(data, fields[0], want);
            Reaches(data, fields, want, i, at) <==>
            n.Ok? && n.value <= |data| && n.value <= at && Reaches(data[n.value..], fields[1..], want, i - 1, at - n.value)
  {
    if i < |fields| {
      assert fields[..i][0] == fields[0] && fields[..i][1..] == fields[1..][..i - 1];
    }
  }

  lemma BadThere(data: bytes, fields: seq<Field>, want: Option<bytes>, i: nat, at: nat, there: bytes, field: Field)
    requires Reaches(data, fields, want, i, at) && there == data[at..] && field == fields[i] && BadField(there, field, want)
    ensures BadFields(data, fields, want)
  {
  }

  lemma BadFirst(data: bytes, fields: seq<Field>, want: Option<bytes>)
    requires fields != [] && BadField(data, fields[0], want)
    ensures BadFields(data, fields, want)
  {
    ReachFirst(data, fields, want, 0);
    assert data[0..] == data;
    BadThere(data, fields, want, 0, 0, data, fields[0]);
  }

  lemma BadLater(data: bytes, fields: seq<Field>, want: Option<bytes>, n: nat)
    requires fields != [] && n <= |data| && FieldSize(data, fields[0], want) == Ok(n) && BadFields(data[n..], fields[1..], want)
    ensures BadFields(data, fields, want)
  {
    var rest := data[n..];
    var i: nat, at: nat :| Reaches(rest, fields[1..], want, i, at) && BadField(rest[at..], fields[1..][i], want);
    BadLaterThere(data, fields, want, n, i, at, rest[at..], fields[1..][i]);
  }

  lemma BadLaterThere(data: bytes, fields: seq<Field>, want: Option<bytes>, n: nat, i: nat, at: nat, there: bytes, field: Field)
    requires fields != [] && n <= |data| && FieldSize(data, fields[0], want) == Ok(n)
    requires Reaches(data[n..], fields[1..], want, i, at) && there == data[n..][at..] && field == fields[1..][i]
    requires BadField(there, field, want)
    ensures BadFields(data, fields, want)
  {
    ReachNext(data, fields, want, n, i, at);
    DropTwice(data, n, at);
    BadThere(data, fields, want, i + 1, n + at, there, field);
  }

  lemma DropTwice(data: bytes, n: nat, m: nat)
    requires n + m <= |data|
    ensures data[n..][m..] == data[n + m..]
  {
  }

  lemma ReachNext(data: bytes, fields: seq<Field>, want: Option<bytes>, n: nat, i: nat, at: nat)
    requires fields != [] && n <= |data| && FieldSize(data, fields[0], want) == Ok(n)
    requires Reaches(data[n..], fields[1..], want, i, at)
    ensures n + at <= |data| && i + 1 < |fields| && Reaches(data, fields, want, i + 1, n + at)
  {
    ReachLater(data, fields, want, i + 1, n + at);
  }

  /** A bad field is the first one, or is among those after it. */
  lemma BadWhere(data: bytes, fields: seq<Field>, want: Option<bytes>)
    requires fields != [] && BadFields(data, fields, want) && !BadField(data, fields[0], want)
    ensures var n := FieldSize(data, fields[0], want);
            n.Ok? && n.value <= |data| && BadFields(data[n.value..], fields[1..], want)
  {
    var i: nat, at: nat :| Reaches(data, fields, want, i, at) && BadField(data[at..], fields[i], want);
    assert data[0..] == data;
    if i == 0 {
      ReachFirst(data, fields, want, at);
    } else {
      ReachLater(data, fields, want, i, at);
      var n := FieldSize(data, fields[0], want).value;
      assert data[n..][at - n..] == data[at..];
    }
  }

  lemma {:induction false} BadFieldsIff(data: bytes, fields: seq<Field>, want: Option<bytes>)
    ensures BadFields(data, fields, want) <==> WalkFields(data, fields, want).Abort?
    decreases |data|, 1 + |fields|
  {
    if fields != [] {
      BadFieldIff(data, fields[0], want);
      var n := FieldSize(data, fields[0], want);
      if BadField(data, fields[0], want) {
        BadFirst(data, fields, want);
      } else if n.Ok? {
        BadFieldsIff(data[n.value..], fields[1..], want);
        if WalkFields(data, fields, want).Abort? {
          BadLater(data, fields, want, n.value);
        }
      }
      if BadFields(data, fields, want) && !BadField(data, fields[0], want) {
        BadWhere(data, fields, want);
      }
    }
  }

  /** The check of a certificate panics if and only if the certificate is bad. */
  lemma BadCertIff(cert: bytes, oid: Option<bytes>)
    ensures BadCert(cert, oid) <==> Cert(cert, oid).Abort?
  {
    if |cert| >= 1 && cert[0] == SEQUENCE {
      BadHeaderIff(cert);
      if Element(cert).Ok? {
        BadFieldsIff(Contents(cert), CERT_FIELDS, if IsLeaf(cert) then oid else None);
      }
    }
  }

  /** A bad certificate comes right after some accepted ones. */
  ghost predicate Panics(chain: bytes, oid: Option<bytes>) {
    exists bounds {:trigger Cuts.Walked(|chain|, PieceOf(chain, oid), bounds)} ::
      && Cuts.Walked(|chain|, PieceOf(chain, oid), bounds) && bounds[|bounds| - 1] < |chain|
      && BadCert(chain[bounds[|bounds| - 1]..], oid)
  }

  lemma PanicsIsStuck(chain: bytes, oid: Option<bytes>)
    ensures Panics(chain, oid) <==> exists bounds :: StuckAt(|chain|, CheckAt(chain, oid), PieceOf(chain, oid), bounds, Abort)
  {
    forall bounds | Cuts.Walked(|chain|, PieceOf(chain, oid), bounds) && bounds[|bounds| - 1] < |chain|
      ensures BadCert(chain[bounds[|bounds| - 1]..], oid) <==> StuckAt(|chain|, CheckAt(chain, oid), PieceOf(chain, oid), bounds, Abort)
    {
      BadCertIff(chain[bounds[|bounds| - 1]..], oid);
    }
  }

  /** `check_cert_chain_format` accepts exactly the chains that can be cut into certificates, and
      returns how many there are. It panics exactly when a bad certificate comes after accepted ones, and
      otherwise reports an error. */
  method CheckCertChainFormat(chain: bytes, oid: Option<bytes>) returns (r: Outcome<nat>)
    ensures r.Ok? ==> exists bounds :: Certificates(chain, oid, bounds) && |bounds| == r.value + 1
    ensures !r.Ok? ==> forall bounds :: !Certificates(chain, oid, bounds)
    ensures r.Abort? <==> Panics(chain, oid)
  {
    AsCut(chain, oid);
    r := Walk(|chain|, CheckAt(chain, oid), PieceOf(chain, oid));
    forall b
      ensures Certificates(chain, oid, b) <==> Cuts.Cut(|chain|, PieceOf(chain, oid), b)
    {
      PieceCut(chain, oid, b);
    }
    PanicIsFinal(|chain|, CheckAt(chain, oid), PieceOf(chain, oid), r);
    PanicsIsStuck(chain, oid);
  }

  /** Where the walk ends, it ends in one way. */
  lemma PanicIsFinal(n: nat, check: nat -> Outcome<nat>, f: Cuts.Piece, r: Outcome<nat>)
    requires Cuts.Sane(n, f) && forall at: nat :: at < n ==> Cuts.Next(n, f, at) == Found(check(at))
    requires if r.Ok? then exists bounds :: Cuts.Cut(n, f, bounds) else exists bounds :: StuckAt(n, check, f, bounds, r)
    ensures r.Abort? <==> exists bounds :: StuckAt(n, check, f, bounds, Abort)
  {
    if r.Ok? {
      var a :| Cuts.Cut(n, f, a);
      Cuts.CutIsWalked(n, f, a);
      forall b
        ensures !StuckAt(n, check, f, b, Abort)
      {
        if StuckAt(n, check, f, b, Abort) {
          Cuts.StuckUnique(n, f, a, b);
        }
      }
    } else {
      var a :| StuckAt(n, check, f, a, r);
      forall b
        ensures StuckAt(n, check, f, b, Abort) ==> r.Abort?
      {
        if StuckAt(n, check, f, b, Abort) {
          Cuts.StuckUnique(n, f, a, b);
        }
      }
    }
  }

  /** A chain that begins with a bad certificate. */
  lemma FirstPanics(chain: bytes, oid: Option<bytes>)
    requires chain != [] && BadCert(chain, oid)
    ensures Panics(chain, oid)
  {
    assert chain[0..] == chain;
    assert Cuts.Walked(|chain|, PieceOf(chain, oid), [0]);
  }

  /** A certificate that gives its length in more than eight octets panics the walker, wherever it stands. */
  lemma LongLengthPanics(cert: bytes, oid: Option<bytes>)
    requires |cert| >= 2 && cert[0] == SEQUENCE && cert[1] > MULTI_OCTET + 8 && |cert| >= 2 + (cert[1] - MULTI_OCTET)
    ensures BadCert(cert, oid) && Cert(cert, oid) == Abort
  {
    assert LongLength(cert[1..]);
    BadCertIff(cert, oid);
  }

  /** Nine length octets: the buffer for them is overrun. */
  lemma NineOctetsPanic(oid: Option<bytes>)
    ensures Panics([0x30, 0x89] + seq(9, _ => 0), oid)
  {
    var chain: bytes := [0x30, 0x89] + seq(9, _ => 0);
    LongLengthPanics(chain, oid);
    FirstPanics(chain, oid);
  }

  /** Eight length octets that announce more than a `usize` can hold the end of. */
  lemma EightOctetsPanic(oid: Option<bytes>)
    ensures Panics([0x30, 0x88] + seq(8, _ => 0xFF), oid)
  {
    var chain: bytes := [0x30, 0x88] + seq(8, _ => 0xFF);
    FromBeBound(chain[1..][1..9]);
    Pow256Values();
    assert EndsAfter(chain, U64_MAX);
    FirstPanics(chain, oid);
  }

  /** A TBSCertificate with a version, a serial number, and an AlgorithmIdentifier that announces 127 octets
      where three are left. */
  const PAST_THE_END: bytes :=
    [0x30, 15, 0x30, 13, 0xA0, 3, 2, 1, 2, 2, 1, 1, 0x30, 127, 0x06, 1, 0]

  lemma PastTheEndPanics(oid: Option<bytes>)
    requires oid.None? || oid == Some([0])
    ensures Panics(PAST_THE_END, oid)
  {
    var cert := PAST_THE_END;
    assert IsLeaf(cert);
    var tbs := Contents(cert);
    assert tbs == PAST_THE_END[2..];
    var fields := Contents(tbs);
    assert fields == PAST_THE_END[4..];
    BadAlgorithm(fields, oid);
    ReachFirst(tbs, CERT_FIELDS, oid, 0);
    assert tbs[0..] == tbs;
    FirstPanics(cert, oid);
  }

  lemma BadAlgorithm(fields: bytes, oid: Option<bytes>)
    requires fields == PAST_THE_END[4..] && (oid.None? || oid == Some([0]))
    ensures BadFields(fields, TBS_FIELDS, oid)
  {
    AlgorithmReached(fields, oid);
    var algorithm := fields[8..];
    assert Contents(algorithm) == [OBJECT_IDENTIFIER, 1, 0];
    assert EndsAfter(algorithm, |algorithm|);
    assert BadField(algorithm, Algorithm, oid);
  }

  lemma AlgorithmReached(fields: bytes, oid: Option<bytes>)
    requires fields == PAST_THE_END[4..]
    ensures Reaches(fields, TBS_FIELDS, oid, 2, 8)
  {
    var serial := fields[5..];
    assert SkipTag(serial) == Ok(3);
    ReachFirst(serial[3..], TBS_FIELDS[1..][1..], oid, 0);
    ReachLater(serial, TBS_FIELDS[1..], oid, 1, 3);
    ReachLater(fields, TBS_FIELDS, oid, 2, 8);
  }

  /** It takes ten octets to make a header bad. */
  lemma BadHeaderIsLong(data: bytes)
    requires BadHeader(data)
    ensures |data| >= 10
  {
    var rest := data[1..];
    if !LongLength(rest) && rest[0] >= MULTI_OCTET && DerLength(rest).value.consumed <= 8 {
      FromBeBound(rest[1..DerLength(rest).value.consumed]);
      Pow256Grows(DerLength(rest).value.consumed - 1, 7);
      Pow256Values();
    }
  }

  lemma WalkFirst(data: bytes, fields: seq<Field>, want: Option<bytes>)
    requires fields != [] && WalkFields(data, fields, want).Ok?
    ensures FieldSize(data, fields[0], want).Ok? && FieldSize(data, fields[0], want).value <= |data|
    ensures var n := FieldSize(data, fields[0], want).value;
            && WalkFields(data[n..], fields[1..], want).Ok?
            && WalkFields(data, fields, want).value == n + WalkFields(data[n..], fields[1..], want).value
  {
  }

  /** Version and serial number take seven octets. */
  lemma WalkIsLong(data: bytes, fields: seq<Field>, want: Option<bytes>)
    requires |fields| >= 2 && fields[0] == VersionNumber && fields[1] == AnyElement && WalkFields(data, fields, want).Ok?
    ensures 7 <= WalkFields(data, fields, want).value <= |data|
  {
    WalkFirst(data, fields, want);
    WalkFirst(data[5..], fields[1..], want);
  }

  lemma TbsIsLong(data: bytes, want: Option<bytes>)
    requires FieldSize(data, TbsCertificate, want).Ok?
    ensures |data| >= 9
  {
    WalkIsLong(data[Element(data).value.0..], TBS_FIELDS, want);
  }

  lemma BadTbsFieldsAreLong(data: bytes, want: Option<bytes>)
    requires BadFields(data, TBS_FIELDS, want)
    ensures |data| >= 10
  {
    var i: nat, at: nat :| Reaches(data, TBS_FIELDS, want, i, at) && BadField(data[at..], TBS_FIELDS[i], want);
    if BadHeader(data[at..]) {
      BadHeaderIsLong(data[at..]);
    } else {
      assert i == 2;
      WalkIsLong(data, TBS_FIELDS[..2], want);
    }
  }

  lemma BadCertFieldsAreLong(data: bytes, want: Option<bytes>)
    requires BadFields(data, CERT_FIELDS, want)
    ensures |data| >= 9
  {
    var i: nat, at: nat :| Reaches(data, CERT_FIELDS, want, i, at) && BadField(data[at..], CERT_FIELDS[i], want);
    if BadHeader(data[at..]) {
      BadHeaderIsLong(data[at..]);
    } else if i == 0 {
      BadTbsFieldsAreLong(Contents(data[at..]), want);
    } else {
      assert i == 1 && CERT_FIELDS[..1][0] == TbsCertificate;
      WalkFirst(data, CERT_FIELDS[..1], want);
      TbsIsLong(data, want);
    }
  }

  /** No chain of fewer octets than `EightOctetsPanic` has panics the walker. */
  lemma ShortChainsDoNotPanic(chain: bytes, oid: Option<bytes>)
    requires Panics(chain, oid)
    ensures |chain| >= 10
  {
    var bounds :| Cuts.Walked(|chain|, PieceOf(chain, oid), bounds) && bounds[|bounds| - 1] < |chain|
                  && BadCert(chain[bounds[|bounds| - 1]..], oid);
    var cert := chain[bounds[|bounds| - 1]..];
    if BadHeader(cert) {
      BadHeaderIsLong(cert);
    } else {
      BadCertFieldsAreLong(Contents(cert), if IsLeaf(cert) then oid else None);
    }
  }

  /** There is at most one way to cut a chain, so the count is the number of certificates. */
  lemma CertificatesUnique(chain: bytes, oid: Option<bytes>, a: seq<nat>, b: seq<nat>)
    requires Certificates(chain, oid, a) && Certificates(chain, oid, b)
    ensures a == b
  {
    PieceSane(chain, oid);
    PieceCut(chain, oid, a);
    PieceCut(chain, oid, b);
    Cuts.CutUnique(|chain|, PieceOf(chain, oid), a, b);
  }
}
