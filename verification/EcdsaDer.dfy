/** Putting a binary ECDSA signature into DER (clauses 8.3 and 10.1 of X.690) for the mbedtls backend. */
module EcdsaDer {
  import opened Bytes
  import CertChain

  const INTEGER: byte := 0x02
  const ECDSA_P384_SIZE: nat := 96

  // A strict DER reader, the reference the encoder is compared with

  /** The content octets of a non-negative INTEGER in its shortest form. */
  predicate IsContent(c: bytes) {
    |c| >= 1 && c[0] < 0x80 && (|c| > 1 && c[0] == 0 ==> c[1] >= 0x80)
  }

  /** Length octets in front that are the shortest for their value: one below 0x80, otherwise a count and
      no leading zero. */
  predicate IsShortest(data: bytes) {
    && CertChain.DerLength(data).Ok?
    && (data[0] >= CertChain.MULTI_OCTET ==> CertChain.DerLength(data).value.value >= CertChain.MULTI_OCTET && data[1] != 0)
  }

  /** The value of the INTEGER in front, and what follows it. */
  function ReadInteger(data: bytes): (r: Option<(nat, bytes)>) {
    if |data| < 1 || data[0] != INTEGER || !IsShortest(data[1..]) then None
    else
      var l := CertChain.DerLength(data[1..]).value;
      ReadContent(data, 1 + l.consumed, 1 + l.consumed + l.value)
  }

  function ReadContent(data: bytes, from: nat, to: nat): (r: Option<(nat, bytes)>)
    requires from <= to
  {
    if to > |data| || !IsContent(data[from..to]) then None else Some((FromBe(data[from..to]), data[to..]))
  }

  /** The two numbers of a SEQUENCE of exactly two INTEGERs and nothing else. */
  function ReadSignature(der: bytes): (v: Option<(nat, nat)>) {
    if !CertChain.IsSequenceTlv(der) || !IsShortest(der[1..]) then None
    else ReadPair(der[1 + CertChain.DerLength(der[1..]).value.consumed..])
  }

  function ReadPair(body: bytes): (v: Option<(nat, nat)>) {
    match ReadInteger(body)
    case None => None
    case Some(first) =>
      match ReadInteger(first.1)
      case None => None
      case Some(second) => if second.1 == [] then Some((first.0, second.0)) else None
  }

  // What is written

  /** The number of leading zero octets. */
  function Lead(s: bytes): (k: nat)
    ensures k <= |s| && (forall i :: 0 <= i < k ==> s[i] == 0) && (k < |s| ==> s[k] != 0)
  {
    if s == [] || s[0] != 0 then 0 else 1 + Lead(s[1..])
  }

  function Content(s: bytes): bytes {
    var t := s[Lead(s)..];
    Pad(t) + t
  }

  /** A zero in front of a high bit. */
  function Pad(t: bytes): bytes {
    if t == [] || t[0] < 0x80 then [] else [0]
  }

  function Integer(c: bytes): bytes
    requires |c| < 256
  {
    [INTEGER, |c|] + c
  }

  function DerSize(r: bytes, s: bytes): nat {
    |Content(r)| + |Content(s)| + 6
  }

  function Der(r: bytes, s: bytes): bytes
    requires DerSize(r, s) < 256
  {
    Sequence(Integer(Content(r)) + Integer(Content(s)))
  }

  function Sequence(body: bytes): (der: bytes)
    requires |body| < 256
    ensures |der| == |body| + 2
  {
    [CertChain.SEQUENCE, |body|] + body
  }

  // The meaning of what is written

  lemma {:induction false} FromBeAtLeast(s: bytes)
    requires s != []
    ensures FromBe(s) >= s[0]
    ensures |s| >= 2 ==> FromBe(s) >= 256 * s[0] as nat
    decreases |s|
  {
    if |s| >= 2 {
      FromBeAtLeast(s[..|s| - 1]);
    }
  }

  lemma ZeroIff(s: bytes)
    ensures FromBe(s) == 0 <==> Lead(s) == |s|
  {
    FromBeLeadingZeros(s, Lead(s));
    if Lead(s) < |s| {
      FromBeAtLeast(s[Lead(s)..]);
    }
  }

  /** Stripping the leading zeros, and putting one back in front of a high bit, gives the shortest form
      of the same number. */
  lemma ContentMeans(s: bytes)
    requires FromBe(s) != 0
    ensures IsContent(Content(s)) && FromBe(Content(s)) == FromBe(s) && |Content(s)| <= |s| + 1
  {
    ZeroIff(s);
    FromBeLeadingZeros(s, Lead(s));
    var t := s[Lead(s)..];
    FromBeLeadingZeros(Pad(t) + t, |Pad(t)|);
    assert (Pad(t) + t)[|Pad(t)|..] == t;
  }

  lemma ShortLength(data: bytes)
    requires |data| >= 2 && data[1] < CertChain.MULTI_OCTET
    ensures CertChain.DerLength(data[1..]) == Ok(CertChain.Length(data[1], 1)) && IsShortest(data[1..])
  {
  }

  lemma ContentOf(c: bytes, rest: bytes)
    requires IsContent(c) && |c| < CertChain.MULTI_OCTET
    ensures ReadContent(Integer(c) + rest, 2, 2 + |c|) == Some((FromBe(c), rest))
  {
    var data := Integer(c) + rest;
    assert data[2..2 + |c|] == c && data[2 + |c|..] == rest;
  }

  lemma ReadIntegerOf(c: bytes, rest: bytes)
    requires IsContent(c) && |c| < CertChain.MULTI_OCTET
    ensures ReadInteger(Integer(c) + rest) == Some((FromBe(c), rest))
  {
    ReadShort(Integer(c) + rest);
    ContentOf(c, rest);
  }

  lemma ReadShort(data: bytes)
    requires |data| >= 2 && data[0] == INTEGER && data[1] < CertChain.MULTI_OCTET
    ensures ReadInteger(data) == ReadContent(data, 2, 2 + data[1])
  {
    ShortLength(data);
  }

  /** A length byte of 0x80 or more in front of an INTEGER is read as a long form whose length octets are
      the INTEGER itself, and never fits. */
  lemma LongLengthMisread(body: bytes)
    requires CertChain.MULTI_OCTET <= |body| < 254 && body[0] == INTEGER
    ensures !CertChain.IsSequenceTlv(Sequence(body))
  {
    var der := Sequence(body);
    if CertChain.DerLength(der[1..]).Ok? {
      var count := der[1] - CertChain.MULTI_OCTET;
      var octets := der[1..][1..count + 1];
      assert |octets| == count && octets[0] == der[1..][1] == der[2] == body[0];
      FromBeAtLeast(octets);
      if count == 1 {
        assert octets[..0] == [] && FromBe(octets) == 2;
      }
    }
  }

  /** A short SEQUENCE. */
  lemma ReadSignatureOf(body: bytes)
    requires |body| < CertChain.MULTI_OCTET
    ensures ReadSignature(Sequence(body)) == ReadPair(body)
  {
    var der := Sequence(body);
    ShortLength(der);
    assert der[2..] == body;
  }

  lemma ReadPairOf(c: bytes, d: bytes)
    requires IsContent(c) && IsContent(d) && |c| < CertChain.MULTI_OCTET && |d| < CertChain.MULTI_OCTET
    ensures ReadPair(Integer(c) + Integer(d)) == Some((FromBe(c), FromBe(d)))
  {
    ReadIntegerOf(c, Integer(d));
    ReadIntegerOf(d, []);
    assert Integer(d) + [] == Integer(d);
  }

  lemma ReadSequence(c: bytes, d: bytes)
    requires IsContent(c) && IsContent(d) && |c| + |d| + 6 < 256
    ensures ReadSignature(Sequence(Integer(c) + Integer(d))) ==
            if |c| + |d| + 6 < 130 then Some((FromBe(c), FromBe(d))) else None
  {
    var body := Integer(c) + Integer(d);
    if |body| < CertChain.MULTI_OCTET {
      ReadSignatureOf(body);
      ReadPairOf(c, d);
    } else {
      LongLengthMisread(body);
    }
  }

  /** The bytes written are read back as the two halves of the signature exactly when they fit a
      one-octet length; longer ones are not a signature at all. */
  lemma ReadBack(r: bytes, s: bytes)
    requires FromBe(r) != 0 && FromBe(s) != 0 && DerSize(r, s) < 256
    ensures ReadSignature(Der(r, s)) == if DerSize(r, s) < 130 then Some((FromBe(r), FromBe(s))) else None
  {
    ContentMeans(r);
    ContentMeans(s);
    ReadSequence(Content(r), Content(s));
  }

  lemma TlvMeans(c: bytes)
    requires |c| < 256
    ensures Integer(c) == [0x02, |c|] + c && Sequence(c) == [0x30, |c|] + c
  {
  }

  /** What is written, byte by byte: a SEQUENCE of two INTEGERs, each with its length in one octet. */
  lemma DerMeans(r: bytes, s: bytes) returns (first: bytes, second: bytes, c: bytes, d: bytes)
    requires FromBe(r) != 0 && FromBe(s) != 0 && DerSize(r, s) < 256
    ensures |first| + |second| + 2 == DerSize(r, s) && Der(r, s) == [0x30, |first| + |second|] + (first + second)
    ensures |c| < 256 && first == [0x02, |c|] + c && IsContent(c) && FromBe(c) == FromBe(r)
    ensures |d| < 256 && second == [0x02, |d|] + d && IsContent(d) && FromBe(d) == FromBe(s)
  {
    ContentMeans(r);
    ContentMeans(s);
    c, d := Content(r), Content(s);
    first, second := Integer(c), Integer(d);
    TlvMeans(c);
    TlvMeans(d);
    TlvMeans(first + second);
  }

  /** Two numbers of 62 octets are already too long. */
  lemma LongNumbersNotRead()
    ensures var r := [1] + seq(61, _ => 0);
            DerSize(r, r) == 130 && FromBe(r) != 0 && ReadSignature(Der(r, r)).None?
  {
    var r: bytes := [1] + seq(61, _ => 0);
    FromBeAtLeast(r);
    assert Lead(r) == 0 && Content(r) == r;
    ReadBack(r, r);
  }

  /** The buffer of the caller always suffices: every P-256 or P-384 signature with both numbers non-zero
      is written and read back. */
  lemma CallerBufferSuffices(r: bytes, s: bytes)
    requires |r| == |s| && |r| + |s| <= 96 && FromBe(r) != 0 && FromBe(s) != 0
    ensures DerSize(r, s) <= 104 == ECDSA_P384_SIZE + 8
    ensures ReadSignature(Der(r, s)) == Some((FromBe(r), FromBe(s)))
  {
    ContentMeans(r);
    ContentMeans(s);
    ReadBack(r, s);
  }

  // The in-place encoder

  /** `ecc_signature_bin_to_der`. The halves `r` and `s` of a signature of even length are written unless
      one is zero or the result does not fit. Of a signature of odd length the last byte is left over, and
      where an even one would be written the copy of `s` has the wrong length and aborts. */
  method EccSignatureBinToDer(signature: bytes, der: array<byte>) returns (res: Outcome<nat>)
    modifies der
    ensures var half := |signature| / 2;
            var r, s := signature[..half], signature[half..2 * half];
            if FromBe(r) == 0 || FromBe(s) == 0 || DerSize(r, s) > der.Length || DerSize(r, s) > 255 then
              res == Err(CryptoError) && der[..] == old(der[..])
            else if |signature| % 2 == 1 then res == Abort
            else res == Ok(DerSize(r, s)) && der[..] == Spliced(old(der[..]), 0, Der(r, s))
  {
    var half := |signature| / 2;
    FirstHalf(signature, half);
    SecondHalf(signature, half, signature[half..2 * half]);
    var rIndex := LeadingZeros(signature[..half]);
    var sIndex := LeadingZeros(signature[half..2 * half]);
    var rSize, sSize := half - rIndex, half - sIndex;
    var r, s := signature[rIndex..half], signature[half + sIndex..];
    if rSize == 0 || sSize == 0 {
      return Err(CryptoError);
    }
    var derRSize, derSSize := |Pad(r)| + rSize, |Pad(s)| + sSize;
    var derSignSize := derRSize + derSSize + 6;
    if der.Length < derSignSize || derRSize > 255 || derSSize > 255 || derSignSize > 255 {
      return Err(CryptoError);
    }
    var done := WriteDer(der, r, s, sSize);
    res := if done then Ok(derSignSize) else Abort;
  }

  lemma FirstHalf(data: bytes, half: nat)
    requires half <= |data|
    ensures var r := data[..half];
            && (FromBe(r) == 0 <==> Lead(r) == half)
            && Content(r) == Pad(data[Lead(r)..half]) + data[Lead(r)..half]
  {
    var r := data[..half];
    ZeroIff(r);
    assert r[Lead(r)..] == data[Lead(r)..half];
  }

  lemma SecondHalf(data: bytes, half: nat, s: bytes)
    requires |s| == half && 2 * half <= |data| && s == data[half..2 * half]
    ensures FromBe(s) == 0 <==> Lead(s) == half
    ensures Lead(s) < half ==> |Content(s)| == |Pad(data[half + Lead(s)..])| + half - Lead(s)
    ensures |data| == 2 * half ==> Content(s) == Pad(data[half + Lead(s)..]) + data[half + Lead(s)..]
  {
    ZeroIff(s);
    Tail(data, half, s, Lead(s));
  }

  lemma Tail(data: bytes, from: nat, s: bytes, k: nat)
    requires k <= |s| && from + |s| <= |data| && s == data[from..from + |s|]
    ensures from + |s| == |data| ==> s[k..] == data[from + k..]
    ensures k < |s| ==> Pad(s[k..]) == Pad(data[from + k..])
  {
  }

  method WriteDer(der: array<byte>, r: bytes, s: bytes, sSize: nat) returns (done: bool)
    requires r != [] && s != []
    requires |Pad(r)| + |r| + |Pad(s)| + sSize + 6 <= der.Length
    requires |Pad(r)| + |r| + |Pad(s)| + sSize + 6 < 256
    modifies der
    ensures done == (|s| == sSize)
    ensures done ==> der[..] == Spliced(old(der[..]), 0, Sequence(Integer(Pad(r) + r) + Integer(Pad(s) + s)))
  {
    ghost var before := der[..];
    var size := |Pad(r)| + |r| + |Pad(s)| + sSize + 4;
    CopyInto(der, 0, [CertChain.SEQUENCE, size]);
    done := WriteInteger(der, 2, r, |r|);
    done := WriteInteger(der, 4 + |Pad(r)| + |r|, s, sSize);
    if done {
      Assembled(before, size, Pad(r) + r, Pad(s) + s);
    }
  }

  lemma Assembled(b: bytes, size: byte, c: bytes, d: bytes)
    requires size == |c| + |d| + 4 && size + 2 <= |b|
    ensures Spliced(Spliced(Spliced(b, 0, [CertChain.SEQUENCE, size]), 2, Integer(c)), 4 + |c|, Integer(d)) ==
            Spliced(b, 0, Sequence(Integer(c) + Integer(d)))
  {
    var head := [CertChain.SEQUENCE, size];
    SpliceTwice(b, 0, head, Integer(c));
    SpliceTwice(b, 0, head + Integer(c), Integer(d));
    assert head + Integer(c) + Integer(d) == Sequence(Integer(c) + Integer(d));
  }

  method LeadingZeros(s: bytes) returns (k: nat)
    ensures k == Lead(s)
  {
    k := |s|;
    for i := 0 to |s|
      invariant k == |s| && forall j :: 0 <= j < i ==> s[j] == 0
    {
      if s[i] != 0 {
        k := i;
        break;
      }
    }
  }

  /** One INTEGER at `at`: `size` octets are left for `octets`, after a zero if the first is high. */
  method WriteInteger(der: array<byte>, at: nat, octets: bytes, size: nat) returns (done: bool)
    requires octets != [] && size + 1 < 256 && at + 2 + |Pad(octets)| + size <= der.Length
    modifies der
    ensures done == (|octets| == size)
    ensures done ==> der[..] == Spliced(old(der[..]), at, Integer(Pad(octets) + octets))
  {
    ghost var before := der[..];
    var head := [INTEGER, |Pad(octets)| + size] + Pad(octets);
    CopyInto(der, at, head);
    if |octets| != size {
      return false;
    }
    CopyInto(der, at + |head|, octets);
    SpliceTwice(before, at, head, octets);
    HeadOf(octets);
    done := true;
  }

  lemma HeadOf(octets: bytes)
    requires |Pad(octets)| + |octets| < 256
    ensures [INTEGER, |Pad(octets)| + |octets|] + Pad(octets) + octets == Integer(Pad(octets) + octets)
  {
  }
}
