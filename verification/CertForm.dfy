/** Certificates built from their parts, and that the walker accepts every chain of them. */
module CertForm {
  import opened Bytes
  import opened CertChain

  /** The length octets `l` stand for `n`. */
  predicate LengthOf(l: bytes, n: nat) {
    DerLength(l) == Ok(Length(n, |l|))
  }

  /** One element: a tag, a length, and that many octets. */
  function Tlv(tag: byte, l: bytes, contents: bytes): bytes {
    [tag] + l + contents
  }

  /** An element of any tag. */
  ghost predicate IsElement(s: bytes) {
    |s| >= 1 && exists l, contents :: LengthOf(l, |contents|) && s == Tlv(s[0], l, contents)
  }

  ghost predicate IsSequence(s: bytes) {
    IsElement(s) && s[0] == SEQUENCE
  }

  /** An AlgorithmIdentifier for `want`, with any parameters. */
  ghost predicate IsAlgorithm(s: bytes, want: Option<bytes>) {
    exists l, oid, parameters ::
      && |oid| < MULTI_OCTET && (want.Some? ==> oid == want.value)
      && LengthOf(l, 2 + |oid| + |parameters|)
      && s == Tlv(SEQUENCE, l, AlgorithmBody(oid, parameters))
  }

  function AlgorithmBody(oid: bytes, parameters: bytes): bytes
    requires |oid| < MULTI_OCTET
  {
    [OBJECT_IDENTIFIER, |oid|] + oid + parameters
  }

  /** [0] EXPLICIT INTEGER 2 */
  const VERSION_3: bytes := [0xA0, 0x03, 0x02, 0x01, 0x02]

  /** The parts of a TBSCertificate in order; `others` are the optional ones. */
  datatype Tbs = Tbs(length: bytes, serial: bytes, algorithm: bytes, issuer: bytes, validity: bytes, subject: bytes,
                     publicKey: bytes, others: bytes)
  {
    function Parts(): seq<bytes> {
      [VERSION_3, serial, algorithm, issuer, validity, subject, publicKey]
    }

    function Body(): bytes {
      Flat(Parts()) + others
    }

    function Bytes(): bytes {
      Tlv(SEQUENCE, length, Body())
    }

    ghost predicate Valid(want: Option<bytes>) {
      && IsElement(serial) && IsAlgorithm(algorithm, want) && IsSequence(issuer) && IsSequence(validity)
      && IsSequence(subject) && IsSequence(publicKey) && LengthOf(length, |Body()|)
    }
  }

  datatype Certificate = Certificate(length: bytes, tbs: Tbs, algorithm: bytes, signature: bytes) {
    function Parts(): seq<bytes> {
      [tbs.Bytes(), algorithm, signature]
    }

    function Bytes(): bytes {
      Tlv(SEQUENCE, length, Flat(Parts()))
    }

    /** Both places name the identifier `want`, if one is wanted. */
    ghost predicate Valid(want: Option<bytes>) {
      && tbs.Valid(want) && IsAlgorithm(algorithm, want) && IsElement(signature) && LengthOf(length, |Flat(Parts())|)
    }
  }

  // Reading the parts

  lemma LengthReads(l: bytes, n: nat, rest: bytes)
    requires LengthOf(l, n)
    ensures DerLength(l + rest) == Ok(Length(n, |l|))
  {
    if l[0] >= MULTI_OCTET {
      assert (l + rest)[1..l[0] - MULTI_OCTET + 1] == l[1..l[0] - MULTI_OCTET + 1];
    }
  }

  /** What follows the tag of an element with anything after it. */
  lemma TlvReads(tag: byte, l: bytes, contents: bytes, rest: bytes)
    requires LengthOf(l, |contents|)
    ensures var data := Tlv(tag, l, contents) + rest;
            && |data| == 1 + |l| + |contents| + |rest| && data[0] == tag
            && DerLength(data[1..]) == Ok(Length(|contents|, |l|)) && data[1 + |l|..] == contents + rest
  {
    var data := Tlv(tag, l, contents) + rest;
    assert data[1..] == l + (contents + rest);
    LengthReads(l, |contents|, contents + rest);
  }

  lemma ElementReads(s: bytes, rest: bytes)
    requires IsElement(s) && |s| + |rest| <= U64_MAX
    ensures SkipTag(s + rest) == Ok(|s|)
    ensures s[0] == SEQUENCE ==> SkipSequence(s + rest) == Ok(|s|)
  {
    var l, contents :| LengthOf(l, |contents|) && s == Tlv(s[0], l, contents);
    TlvReads(s[0], l, contents, rest);
  }

  lemma AlgorithmTlv(l: bytes, body: bytes, want: Option<bytes>, rest: bytes)
    requires LengthOf(l, |body|) && 1 + |l| + |body| <= U64_MAX
    ensures Oid(body + rest, want).Ok? ==> AlgorithmId(Tlv(SEQUENCE, l, body) + rest, want) == Ok(1 + |l| + |body|)
    ensures !Oid(body + rest, want).Ok? ==>
              AlgorithmId(Tlv(SEQUENCE, l, body) + rest, want) == Oid(body + rest, want).PropagateFailure()
  {
    TlvReads(SEQUENCE, l, body, rest);
  }

  lemma AlgorithmReads(s: bytes, want: Option<bytes>, rest: bytes)
    requires IsAlgorithm(s, want) && |s| + |rest| <= U64_MAX
    ensures AlgorithmId(s + rest, want) == Ok(|s|)
  {
    var l, oid, parameters :|
      && |oid| < MULTI_OCTET && (want.Some? ==> oid == want.value)
      && LengthOf(l, 2 + |oid| + |parameters|)
      && s == Tlv(SEQUENCE, l, AlgorithmBody(oid, parameters));
    OidReads(oid, parameters, rest, want);
    AlgorithmTlv(l, AlgorithmBody(oid, parameters), want, rest);
  }

  lemma OidReads(oid: bytes, parameters: bytes, rest: bytes, want: Option<bytes>)
    requires |oid| < MULTI_OCTET && (want.Some? ==> oid == want.value)
    ensures Oid(AlgorithmBody(oid, parameters) + rest, want).Ok?
  {
    assert (AlgorithmBody(oid, parameters) + rest)[2..2 + |oid|] == oid;
  }

  /** A part that is read as its field whatever follows it. */
  ghost predicate Fits(part: bytes, field: Field, want: Option<bytes>) {
    forall rest: bytes {:trigger FieldSize(part + rest, field, want)} ::
      |part| + |rest| <= U64_MAX ==> FieldSize(part + rest, field, want) == Ok(|part|)
  }

  lemma WalkStep(data: bytes, n: nat, fields: seq<Field>, want: Option<bytes>, m: nat)
    requires fields != [] && FieldSize(data, fields[0], want) == Ok(n) && n <= |data|
    requires WalkFields(data[n..], fields[1..], want) == Ok(m)
    ensures WalkFields(data, fields, want) == Ok(n + m)
  {
    assert From(data, n) == Ok(data[n..]);
  }

  lemma {:induction false} PartsWalk(parts: seq<bytes>, fields: seq<Field>, want: Option<bytes>, rest: bytes)
    requires |parts| == |fields| && |Flat(parts)| + |rest| <= U64_MAX
    requires forall i :: 0 <= i < |parts| ==> Fits(parts[i], fields[i], want)
    ensures WalkFields(Flat(parts) + rest, fields, want) == Ok(|Flat(parts)|)
    decreases |parts|
  {
    if parts != [] {
      PartsWalk(parts[1..], fields[1..], want, rest);
      FirstPart(parts, fields, want, rest);
      WalkStep(Flat(parts) + rest, |parts[0]|, fields, want, |Flat(parts[1..])|);
    }
  }

  lemma FirstPart(parts: seq<bytes>, fields: seq<Field>, want: Option<bytes>, rest: bytes)
    requires |parts| == |fields| > 0 && |Flat(parts)| + |rest| <= U64_MAX && Fits(parts[0], fields[0], want)
    ensures FieldSize(Flat(parts) + rest, fields[0], want) == Ok(|parts[0]|)
    ensures (Flat(parts) + rest)[|parts[0]|..] == Flat(parts[1..]) + rest
  {
    assert Flat(parts) + rest == parts[0] + (Flat(parts[1..]) + rest);
  }

  lemma TbsFits(t: Tbs, want: Option<bytes>)
    requires t.Valid(want)
    ensures Fits(t.Bytes(), TbsCertificate, want)
  {
    TbsPartsFit(t, want);
    forall rest: bytes | |t.Bytes()| + |rest| <= U64_MAX
      ensures FieldSize(t.Bytes() + rest, TbsCertificate, want) == Ok(|t.Bytes()|)
    {
      assert t.Body() + rest == Flat(t.Parts()) + (t.others + rest);
      PartsWalk(t.Parts(), TBS_FIELDS, want, t.others + rest);
      TbsOf(t.length, t.Body(), want, rest);
    }
  }

  lemma TbsOf(l: bytes, body: bytes, want: Option<bytes>, rest: bytes)
    requires LengthOf(l, |body|) && 1 + |l| + |body| <= U64_MAX
    requires WalkFields(body + rest, TBS_FIELDS, want).Ok?
    ensures FieldSize(Tlv(SEQUENCE, l, body) + rest, TbsCertificate, want) == Ok(1 + |l| + |body|)
  {
    TlvReads(SEQUENCE, l, body, rest);
  }

  lemma SequenceFits(s: bytes, want: Option<bytes>)
    requires IsSequence(s)
    ensures Fits(s, Sequence, want)
  {
    forall rest: bytes | |s| + |rest| <= U64_MAX
      ensures FieldSize(s + rest, Sequence, want) == Ok(|s|)
    {
      ElementReads(s, rest);
    }
  }

  lemma ElementFits(s: bytes, want: Option<bytes>)
    requires IsElement(s)
    ensures Fits(s, AnyElement, want)
  {
    forall rest: bytes | |s| + |rest| <= U64_MAX
      ensures FieldSize(s + rest, AnyElement, want) == Ok(|s|)
    {
      ElementReads(s, rest);
    }
  }

  lemma AlgorithmFits(s: bytes, want: Option<bytes>)
    requires IsAlgorithm(s, want)
    ensures Fits(s, Algorithm, want)
  {
    forall rest: bytes | |s| + |rest| <= U64_MAX
      ensures FieldSize(s + rest, Algorithm, want) == Ok(|s|)
    {
      AlgorithmReads(s, want, rest);
    }
  }

  lemma TbsPartsFit(t: Tbs, want: Option<bytes>)
    requires t.Valid(want)
    ensures forall i :: 0 <= i < 7 ==> Fits(t.Parts()[i], TBS_FIELDS[i], want)
  {
    ElementFits(t.serial, want);
    AlgorithmFits(t.algorithm, want);
    SequenceFits(t.issuer, want);
    SequenceFits(t.validity, want);
    SequenceFits(t.subject, want);
    SequenceFits(t.publicKey, want);
  }

  /** A certificate of the standard form is accepted whole, whatever follows it. */
  lemma CertificateAccepted(c: Certificate, want: Option<bytes>, rest: bytes)
    requires c.Valid(want) && |c.Bytes()| + |rest| <= U64_MAX
    ensures CertWith(c.Bytes() + rest, want) == Ok(|c.Bytes()|)
  {
    PartsFit(c, want);
    PartsWalk(c.Parts(), CERT_FIELDS, want, rest);
    CertOf(c.length, Flat(c.Parts()), want, rest);
  }

  lemma PartsFit(c: Certificate, want: Option<bytes>)
    requires c.Valid(want)
    ensures forall i :: 0 <= i < 3 ==> Fits(c.Parts()[i], CERT_FIELDS[i], want)
  {
    TbsFits(c.tbs, want);
    AlgorithmFits(c.algorithm, want);
    ElementFits(c.signature, want);
  }

  lemma CertOf(l: bytes, body: bytes, want: Option<bytes>, rest: bytes)
    requires LengthOf(l, |body|) && 1 + |l| + |body| <= U64_MAX
    requires WalkFields(body + rest, CERT_FIELDS, want) == Ok(|body|)
    ensures CertWith(Tlv(SEQUENCE, l, body) + rest, want) == Ok(1 + |l| + |body|)
  {
    TlvReads(SEQUENCE, l, body, rest);
  }

  // A certificate that names another identifier

  lemma OtherOidRefused(s: bytes, oid: bytes, want: bytes, rest: bytes)
    requires IsAlgorithm(s, Some(oid)) && oid != want && |s| + |rest| <= U64_MAX
    ensures AlgorithmId(s + rest, Some(want)) == Err(VerifFail)
  {
    var l, o, parameters :|
      && |o| < MULTI_OCTET && (Some(oid).Some? ==> o == oid)
      && LengthOf(l, 2 + |o| + |parameters|)
      && s == Tlv(SEQUENCE, l, AlgorithmBody(o, parameters));
    OtherOid(oid, parameters, rest, want);
    AlgorithmTlv(l, AlgorithmBody(oid, parameters), Some(want), rest);
  }

  lemma OtherOid(oid: bytes, parameters: bytes, rest: bytes, want: bytes)
    requires |oid| < MULTI_OCTET && oid != want
    ensures Oid(AlgorithmBody(oid, parameters) + rest, Some(want)) == Err(VerifFail)
  {
    assert (AlgorithmBody(oid, parameters) + rest)[2..2 + |oid|] == oid;
  }

  /** A part that is refused as its field whatever follows it. */
  ghost predicate Refused(part: bytes, field: Field, want: Option<bytes>) {
    forall rest: bytes {:trigger FieldSize(part + rest, field, want)} ::
      |part| + |rest| <= U64_MAX ==> FieldSize(part + rest, field, want) == Err(VerifFail)
  }

  lemma WalkErr(data: bytes, n: nat, fields: seq<Field>, want: Option<bytes>)
    requires fields != [] && FieldSize(data, fields[0], want) == Ok(n) && n <= |data|
    requires WalkFields(data[n..], fields[1..], want) == Err(VerifFail)
    ensures WalkFields(data, fields, want) == Err(VerifFail)
  {
  }

  /** The walk stops at the first part that is refused. */
  lemma {:induction false} PartsRefused(parts: seq<bytes>, fields: seq<Field>, want: Option<bytes>, rest: bytes, k: nat)
    requires |parts| == |fields| && k < |parts| && |Flat(parts)| + |rest| <= U64_MAX
    requires (forall i :: 0 <= i < k ==> Fits(parts[i], fields[i], want)) && Refused(parts[k], fields[k], want)
    ensures WalkFields(Flat(parts) + rest, fields, want) == Err(VerifFail)
    decreases k
  {
    if k > 0 {
      PartsRefused(parts[1..], fields[1..], want, rest, k - 1);
      FirstPart(parts, fields, want, rest);
      WalkErr(Flat(parts) + rest, |parts[0]|, fields, want);
    } else {
      assert Flat(parts) + rest == parts[0] + (Flat(parts[1..]) + rest);
      assert FieldSize(parts[0] + (Flat(parts[1..]) + rest), fields[0], want) == Err(VerifFail);
    }
  }

  lemma OtherAlgorithmRefused(s: bytes, oid: bytes, want: bytes)
    requires IsAlgorithm(s, Some(oid)) && oid != want
    ensures Refused(s, Algorithm, Some(want))
  {
    forall rest: bytes | |s| + |rest| <= U64_MAX
      ensures FieldSize(s + rest, Algorithm, Some(want)) == Err(VerifFail)
    {
      OtherOidRefused(s, oid, want, rest);
    }
  }

  lemma OtherTbsRefused(t: Tbs, oid: bytes, want: bytes)
    requires t.Valid(Some(oid)) && oid != want
    ensures Refused(t.Bytes(), TbsCertificate, Some(want))
  {
    ElementFits(t.serial, Some(want));
    OtherAlgorithmRefused(t.algorithm, oid, want);
    forall rest: bytes | |t.Bytes()| + |rest| <= U64_MAX
      ensures FieldSize(t.Bytes() + rest, TbsCertificate, Some(want)) == Err(VerifFail)
    {
      PartsRefused(t.Parts(), TBS_FIELDS, Some(want), t.others + rest, 2);
      assert t.Body() + rest == Flat(t.Parts()) + (t.others + rest);
      TbsRefused(t.length, t.Body(), Some(want), rest);
    }
  }

  lemma TbsRefused(l: bytes, body: bytes, want: Option<bytes>, rest: bytes)
    requires LengthOf(l, |body|) && 1 + |l| + |body| <= U64_MAX
    requires WalkFields(body + rest, TBS_FIELDS, want) == Err(VerifFail)
    ensures FieldSize(Tlv(SEQUENCE, l, body) + rest, TbsCertificate, want) == Err(VerifFail)
  {
    TlvReads(SEQUENCE, l, body, rest);
  }

  lemma OtherCertificateRefused(c: Certificate, oid: bytes, want: bytes, rest: bytes)
    requires c.Valid(Some(oid)) && oid != want && |c.Bytes()| + |rest| <= U64_MAX
    ensures CertWith(c.Bytes() + rest, Some(want)) == Err(VerifFail)
  {
    OtherTbsRefused(c.tbs, oid, want);
    PartsRefused(c.Parts(), CERT_FIELDS, Some(want), rest, 0);
    CertRefused(c.length, Flat(c.Parts()), want, rest);
  }

  lemma CertRefused(l: bytes, body: bytes, want: bytes, rest: bytes)
    requires LengthOf(l, |body|) && 1 + |l| + |body| <= U64_MAX
    requires WalkFields(body + rest, CERT_FIELDS, Some(want)) == Err(VerifFail)
    ensures CertWith(Tlv(SEQUENCE, l, body) + rest, Some(want)) == Err(VerifFail)
  {
    TlvReads(SEQUENCE, l, body, rest);
  }

  /** As the leaf, a certificate of the standard form is accepted exactly for the identifier it names. */
  lemma LeafOidExact(c: Certificate, oid: bytes, want: bytes, rest: bytes)
    requires c.Valid(Some(oid)) && |c.Bytes()| + |rest| <= U64_MAX
    ensures CertWith(c.Bytes() + rest, Some(want)).Ok? <==> oid == want
  {
    if oid == want {
      CertificateAccepted(c, Some(want), rest);
    } else {
      OtherCertificateRefused(c, oid, want, rest);
    }
  }

  // What acceptance says about the bytes

  /** An AlgorithmIdentifier that names `oid` begins at `at`. */
  ghost predicate NamesAt(data: bytes, at: nat, oid: bytes) {
    exists l, n: nat :: && |oid| < MULTI_OCTET && at <= |data| && LengthOf(l, n)
                        && [SEQUENCE] + l + [OBJECT_IDENTIFIER, |oid|] + oid <= data[at..]
  }

  /** The length octets in front. */
  lemma LengthIsPrefix(data: bytes)
    requires DerLength(data).Ok?
    ensures var l := DerLength(data).value; LengthOf(data[..l.consumed], l.value)
  {
    DerLengthPrefix(data, DerLength(data).value.consumed);
  }

  lemma AlgorithmNames(data: bytes, oid: bytes)
    requires AlgorithmId(data, Some(oid)).Ok?
    ensures NamesAt(data, 0, oid)
  {
    var l := DerLength(data[1..]).value;
    var c := l.consumed;
    LengthIsPrefix(data[1..]);
    assert data[1..][..c] == data[1..1 + c];
    OidMeans(data[1 + c..], oid);
    Joined(data, c, oid);
    assert data[0..] == data;
    assert LengthOf(data[1..1 + c], l.value);
  }

  lemma OidMeans(data: bytes, oid: bytes)
    requires Oid(data, Some(oid)).Ok?
    ensures |oid| < MULTI_OCTET && 2 + |oid| <= |data|
    ensures data[0] == OBJECT_IDENTIFIER && data[1] == |oid| && data[2..2 + |oid|] == oid
  {
  }

  lemma Joined(data: bytes, c: nat, oid: bytes)
    requires |oid| < MULTI_OCTET && 1 + c + 2 + |oid| <= |data| && data[0] == SEQUENCE
    requires data[1 + c..][0] == OBJECT_IDENTIFIER && data[1 + c..][1] == |oid| && data[1 + c..][2..2 + |oid|] == oid
    ensures [SEQUENCE] + data[1..1 + c] + [OBJECT_IDENTIFIER, |oid|] + oid <= data
  {
    assert data == data[..1 + c] + data[1 + c..];
    assert data[..1 + c] == [SEQUENCE] + data[1..1 + c];
    assert data[1 + c..] == [OBJECT_IDENTIFIER, |oid|] + oid + data[1 + c..][2 + |oid|..];
  }

  lemma NamesLater(data: bytes, k: nat, at: nat, oid: bytes)
    requires k <= |data| && NamesAt(data[k..], at, oid)
    ensures NamesAt(data, k + at, oid)
  {
    assert data[k..][at..] == data[k + at..];
  }

  lemma VersionMeans(data: bytes)
    ensures Version(data).Ok? <==> VERSION_3 <= data
    ensures Version(data).Ok? <==> [0xA0, 0x03, 0x02, 0x01, 0x02] <= data
  {
  }

  lemma WalkFirst(data: bytes, first: Field, fields: seq<Field>, want: Option<bytes>) returns (n: nat)
    requires WalkFields(data, [first] + fields, want).Ok?
    ensures FieldSize(data, first, want) == Ok(n) && n <= |data| && WalkFields(data[n..], fields, want).Ok?
  {
    assert ([first] + fields)[1..] == fields;
    n := FieldSize(data, first, want).value;
  }

  /** Where the algorithm identifier stands behind the version and the serial number of a TBSCertificate
      whose contents are `body`. */
  predicate AfterSerial(body: bytes, at: nat) {
    VERSION_3 <= body && SkipTag(body[5..]) == Ok(at - 5)
  }

  lemma TbsBodyMeans(body: bytes, oid: bytes) returns (at: nat)
    requires WalkFields(body, TBS_FIELDS, Some(oid)).Ok?
    ensures at >= 5 && AfterSerial(body, at) && NamesAt(body, at, oid)
  {
    var after := [Algorithm, Sequence, Sequence, Sequence, Sequence];
    assert TBS_FIELDS == [VersionNumber] + ([AnyElement] + after);
    var v := WalkFirst(body, VersionNumber, [AnyElement] + after, Some(oid));
    VersionMeans(body);
    var n := SerialMeans(body[5..], oid);
    NamesLater(body, 5, n, oid);
    at := 5 + n;
  }

  lemma SerialMeans(data: bytes, oid: bytes) returns (n: nat)
    requires WalkFields(data, [AnyElement] + [Algorithm, Sequence, Sequence, Sequence, Sequence], Some(oid)).Ok?
    ensures SkipTag(data) == Ok(n) && NamesAt(data, n, oid)
  {
    var after := [Sequence, Sequence, Sequence, Sequence];
    n := WalkFirst(data, AnyElement, [Algorithm, Sequence, Sequence, Sequence, Sequence], Some(oid));
    assert [Algorithm, Sequence, Sequence, Sequence, Sequence] == [Algorithm] + after;
    var _ := WalkFirst(data[n..], Algorithm, after, Some(oid));
    AlgorithmNames(data[n..], oid);
    NamesLater(data, n, 0, oid);
  }

  /** The element in front is a SEQUENCE that begins with the version 3 field and a serial number, names
      `oid` right after them, and ends at `end`. */
  ghost predicate TbsNames(data: bytes, oid: bytes, end: nat) {
    && Element(data).Ok? && Element(data).value.1 == end <= |data|
    && exists at: nat :: at >= 5 && AfterSerial(data[Element(data).value.0..], at) && NamesAt(data[Element(data).value.0..], at, oid)
  }

  lemma TbsMeans(data: bytes, oid: bytes)
    requires FieldSize(data, TbsCertificate, Some(oid)).Ok?
    ensures TbsNames(data, oid, FieldSize(data, TbsCertificate, Some(oid)).value)
  {
    var k := TbsBodyMeans(data[Element(data).value.0..], oid);
  }

  lemma BodyMeans(body: bytes, oid: bytes) returns (outer: nat)
    requires WalkFields(body, CERT_FIELDS, Some(oid)).Ok?
    ensures TbsNames(body, oid, outer) && NamesAt(body, outer, oid)
  {
    assert CERT_FIELDS == [TbsCertificate] + ([Algorithm] + [AnyElement]);
    outer := WalkFirst(body, TbsCertificate, [Algorithm] + [AnyElement], Some(oid));
    TbsMeans(body, oid);
    var _ := WalkFirst(body[outer..], Algorithm, [AnyElement], Some(oid));
    AlgorithmNames(body[outer..], oid);
    NamesLater(body, outer, 0, oid);
  }

  /** An accepted leaf is a SEQUENCE whose contents begin with a TBSCertificate SEQUENCE; that begins with
      the version 3 field and a serial number and names the wanted identifier right after them; and right
      after its end the identifier is named again. */
  lemma LeafMeans(cert: bytes, oid: bytes) returns (outer: nat)
    requires CertWith(cert, Some(oid)).Ok?
    ensures Element(cert).Ok?
    ensures TbsNames(cert[Element(cert).value.0..], oid, outer) && NamesAt(cert[Element(cert).value.0..], outer, oid)
  {
    CertBody(cert, Some(oid));
    outer := BodyMeans(cert[Element(cert).value.0..], oid);
  }

  lemma CertBody(cert: bytes, want: Option<bytes>)
    requires CertWith(cert, want).Ok?
    ensures Element(cert).Ok? && WalkFields(cert[Element(cert).value.0..], CERT_FIELDS, want).Ok?
  {
  }

  // What acceptance says about all the parts

  /** What a checked field is: the version, any element, or a SEQUENCE. */
  ghost predicate IsPart(part: bytes, field: Field) {
    match field
    case VersionNumber => part == [0xA0, 0x03, 0x02, 0x01, 0x02]
    case AnyElement => IsElement(part)
    case _ => IsElement(part) && part[0] == 0x30
  }

  lemma ElementInFront(data: bytes)
    requires |data| >= 1 && DerLength(data[1..]).Ok?
    requires 1 + DerLength(data[1..]).value.consumed + DerLength(data[1..]).value.value <= |data|
    ensures IsElement(data[..1 + DerLength(data[1..]).value.consumed + DerLength(data[1..]).value.value])
  {
    var c, v := DerLength(data[1..]).value.consumed, DerLength(data[1..]).value.value;
    LengthIsPrefix(data[1..]);
    var l, contents := data[1..][..c], data[1 + c..1 + c + v];
    assert LengthOf(l, |contents|);
    assert data[..1 + c + v] == Tlv(data[0], l, contents);
  }

  lemma FieldIsPart(data: bytes, field: Field, want: Option<bytes>, n: nat)
    requires FieldSize(data, field, want) == Ok(n) && n <= |data|
    ensures IsPart(data[..n], field)
  {
    if field == VersionNumber {
      assert data[..5] == [0xA0, 0x03, 0x02, 0x01, 0x02];
    } else {
      ElementInFront(data);
    }
  }

  lemma Joins(data: bytes, n: nat, rest: bytes)
    requires n <= |data| && rest <= data[n..]
    ensures data[..n] + rest <= data
  {
    assert data == data[..n] + data[n..];
  }

  /** Fields that are walked over are parts one after the other. */
  lemma {:induction false} WalkParts(data: bytes, fields: seq<Field>, want: Option<bytes>) returns (parts: seq<bytes>)
    requires WalkFields(data, fields, want).Ok?
    ensures |parts| == |fields| && |Flat(parts)| == WalkFields(data, fields, want).value && Flat(parts) <= data
    ensures forall i :: 0 <= i < |fields| ==> IsPart(parts[i], fields[i])
    ensures fields != [] ==> FieldSize(data, fields[0], want) == Ok(|parts[0]|)
    decreases |fields|
  {
    if fields == [] {
      parts := [];
    } else {
      CertChain.WalkFirst(data, fields, want);
      var n := FieldSize(data, fields[0], want).value;
      FieldIsPart(data, fields[0], want, n);
      var rest := WalkParts(data[n..], fields[1..], want);
      parts := OnePart(data, n, fields, rest);
    }
  }

  lemma OnePart(data: bytes, n: nat, fields: seq<Field>, rest: seq<bytes>) returns (parts: seq<bytes>)
    requires fields != [] && n <= |data| && IsPart(data[..n], fields[0])
    requires |rest| == |fields| - 1 && (forall i :: 0 <= i < |rest| ==> IsPart(rest[i], fields[1..][i])) && Flat(rest) <= data[n..]
    ensures |parts| == |fields| && |parts[0]| == n && (forall i :: 0 <= i < |fields| ==> IsPart(parts[i], fields[i]))
    ensures |Flat(parts)| == n + |Flat(rest)| && Flat(parts) <= data
  {
    parts := [data[..n]] + rest;
    assert parts[1..] == rest;
    Joins(data, n, Flat(rest));
    forall i | 0 <= i < |fields|
      ensures IsPart(parts[i], fields[i])
    {
      assert i > 0 ==> parts[i] == rest[i - 1] && fields[i] == fields[1..][i - 1];
    }
  }

  /** An accepted certificate is, whole, a SEQUENCE of a TBSCertificate, an AlgorithmIdentifier and a signature. */
  lemma CertMeans(cert: bytes, want: Option<bytes>) returns (l: bytes, parts: seq<bytes>)
    requires CertWith(cert, want).Ok?
    ensures cert[..CertWith(cert, want).value] == [0x30] + l + Flat(parts) && LengthOf(l, |Flat(parts)|)
    ensures |parts| == 3 && IsPart(parts[0], Sequence) && IsPart(parts[1], Sequence) && IsPart(parts[2], AnyElement)
  {
    var h, end := Element(cert).value.0, Element(cert).value.1;
    LengthIsPrefix(cert[1..]);
    l := cert[1..][..h - 1];
    parts := WalkParts(cert[h..], CERT_FIELDS, want);
    assert IsPart(parts[0], TbsCertificate) && IsPart(parts[1], Algorithm);
    Whole(cert, h, end, l, Flat(parts));
  }

  lemma Whole(cert: bytes, h: nat, end: nat, l: bytes, body: bytes)
    requires 1 <= h <= end <= |cert| && cert[0] == 0x30 && l == cert[1..][..h - 1] && body <= cert[h..] && h + |body| == end
    ensures cert[..end] == [0x30] + l + body
  {
    assert cert[..end] == cert[..h] + cert[h..][..end - h];
  }

  /** And behind the header of its TBSCertificate come the version, a serial number, and SEQUENCEs for algorithm,
      issuer, validity, subject and public key. */
  lemma TbsFieldsMean(cert: bytes, want: Option<bytes>) returns (h: nat, tbs: seq<bytes>)
    requires CertWith(cert, want).Ok?
    ensures Element(cert).Ok?
    ensures |tbs| == 7 && IsPart(tbs[0], VersionNumber) && IsPart(tbs[1], AnyElement) && forall i :: 2 <= i < 7 ==> IsPart(tbs[i], Sequence)
    ensures var body := cert[Element(cert).value.0..];
            && 2 <= h <= |body| && body[0] == 0x30 && DerLength(body[1..h]).Ok? && DerLength(body[1..h]).value.consumed == h - 1
            && Flat(tbs) <= body[h..]
  {
    CertBody(cert, want);
    var inner;
    h, inner := TbsHeader(cert[Element(cert).value.0..], want);
    tbs := WalkParts(inner, TBS_FIELDS, want);
    assert IsPart(tbs[2], Algorithm);
  }

  /** An object identifier: tag 6, a length below 0x80 that fits, and the wanted octets if any are wanted. */
  lemma OidIff(data: bytes, want: Option<bytes>)
    ensures Oid(data, want) ==
            if |data| >= 2 && data[0] == 0x06 && data[1] < 0x80 && 2 + data[1] <= |data| && (want.Some? ==> data[2..2 + data[1]] == want.value)
            then Ok(2 + data[1] as int) else Err(VerifFail)
  {
  }

  /** The header of the TBSCertificate in front, and what is walked over behind it. */
  lemma TbsHeader(body: bytes, want: Option<bytes>) returns (h: nat, inner: bytes)
    requires WalkFields(body, CERT_FIELDS, want).Ok?
    ensures Element(body).Ok? && h == Element(body).value.0 && inner == body[h..] && WalkFields(inner, TBS_FIELDS, want).Ok?
    ensures 2 <= h <= |body| && LengthOf(body[1..h], Element(body).value.1 - h)
  {
    CertChain.WalkFirst(body, CERT_FIELDS, want);
    TbsInside(body, want);
    h := Element(body).value.0;
    inner := body[h..];
    HeaderIs(body);
  }

  lemma TbsInside(body: bytes, want: Option<bytes>)
    requires FieldSize(body, TbsCertificate, want).Ok?
    ensures Element(body).Ok? && WalkFields(body[Element(body).value.0..], TBS_FIELDS, want).Ok?
  {
  }

  lemma HeaderIs(body: bytes)
    requires Element(body).Ok?
    ensures LengthOf(body[1..Element(body).value.0], Element(body).value.1 - Element(body).value.0)
  {
    LengthIsPrefix(body[1..]);
    assert body[1..][..Element(body).value.0 - 1] == body[1..Element(body).value.0];
  }

  // Whole chains

  /** Where the pieces begin, and where the last one ends. */
  function BoundsOf(pieces: seq<bytes>): (b: seq<nat>)
    ensures |b| == |pieces| + 1
  {
    seq(|pieces| + 1, i requires 0 <= i <= |pieces| => |Flat(pieces[..i])|)
  }

  lemma PieceFrom(pieces: seq<bytes>, i: nat)
    requires i < |pieces|
    ensures BoundsOf(pieces)[i + 1] == BoundsOf(pieces)[i] + |pieces[i]| <= |Flat(pieces)|
    ensures Flat(pieces)[BoundsOf(pieces)[i]..] == pieces[i] + Flat(pieces[i + 1..])
  {
    FlatSplit(pieces, i);
    assert pieces[i..][1..] == pieces[i + 1..];
    FlatSplit(pieces[..i + 1], i);
    assert pieces[..i + 1][..i] == pieces[..i] && pieces[..i + 1][i..] == [pieces[i]];
    assert Flat([pieces[i]]) == pieces[i] + Flat([]);
  }

  /** A piece that is taken for one certificate whatever follows it. */
  ghost predicate Accepted(piece: bytes, want: Option<bytes>) {
    |piece| > 0 && forall rest: bytes {:trigger CertWith(piece + rest, want)} ::
      |piece| + |rest| <= U64_MAX ==> CertWith(piece + rest, want) == Ok(|piece|)
  }

  lemma PieceAccepted(pieces: seq<bytes>, oid: Option<bytes>, i: nat)
    requires i < |pieces| && |Flat(pieces)| <= U64_MAX
    requires Accepted(pieces[i], if i == |pieces| - 1 then oid else None)
    ensures CertAt(Flat(pieces), oid, BoundsOf(pieces), i)
  {
    PieceFrom(pieces, i);
    AcceptedAt(Flat(pieces)[BoundsOf(pieces)[i]..], pieces[i], Flat(pieces[i + 1..]),
               if i == |pieces| - 1 then oid else None);
  }

  lemma AcceptedAt(data: bytes, piece: bytes, rest: bytes, want: Option<bytes>)
    requires data == piece + rest && |data| <= U64_MAX && Accepted(piece, want)
    ensures CertWith(data, want) == Ok(|piece|) && |piece| > 0
  {
  }

  lemma BoundsInside(pieces: seq<bytes>, i: nat)
    requires i <= |pieces|
    ensures BoundsOf(pieces)[i] <= |Flat(pieces)|
  {
    FlatSplit(pieces, i);
  }

  lemma PiecesAccepted(pieces: seq<bytes>, oid: Option<bytes>)
    requires |Flat(pieces)| <= U64_MAX
    requires forall i :: 0 <= i < |pieces| ==> Accepted(pieces[i], if i == |pieces| - 1 then oid else None)
    ensures Certificates(Flat(pieces), oid, BoundsOf(pieces))
  {
    forall i: nat | i < |pieces|
      ensures CertAt(Flat(pieces), oid, BoundsOf(pieces), i)
    {
      PieceAccepted(pieces, oid, i);
    }
    forall i: nat | i <= |pieces|
      ensures BoundsOf(pieces)[i] <= |Flat(pieces)|
    {
      BoundsInside(pieces, i);
    }
    assert pieces[..0] == [] && pieces[..|pieces|] == pieces;
  }

  function Pieces(certs: seq<Certificate>): seq<bytes> {
    seq(|certs|, i requires 0 <= i < |certs| => certs[i].Bytes())
  }

  /** Only the leaf has to name the wanted identifier. */
  ghost predicate ValidChain(certs: seq<Certificate>, oid: Option<bytes>) {
    forall i :: 0 <= i < |certs| ==> certs[i].Valid(if i == |certs| - 1 then oid else None)
  }

  /** The walker accepts every chain of certificates in the standard form whose leaf names the wanted
      identifier, and cuts it between them. */
  lemma ChainAccepted(certs: seq<Certificate>, oid: Option<bytes>)
    requires ValidChain(certs, oid) && |Flat(Pieces(certs))| <= U64_MAX
    ensures Certificates(Flat(Pieces(certs)), oid, BoundsOf(Pieces(certs)))
  {
    var pieces := Pieces(certs);
    forall i | 0 <= i < |pieces|
      ensures Accepted(pieces[i], if i == |pieces| - 1 then oid else None)
    {
      CertificateFits(certs[i], if i == |pieces| - 1 then oid else None);
    }
    PiecesAccepted(pieces, oid);
  }

  lemma CertificateFits(c: Certificate, want: Option<bytes>)
    requires c.Valid(want)
    ensures Accepted(c.Bytes(), want)
  {
    forall rest: bytes | |c.Bytes()| + |rest| <= U64_MAX
      ensures CertWith(c.Bytes() + rest, want) == Ok(|c.Bytes()|)
    {
      CertificateAccepted(c, want, rest);
    }
  }
}
