/** The certificate-chain splitter of the mbedtls backend, which frames certificates by a two-octet length
    alone, and its agreement with the DER walker. */
module CertSplit {
  import opened Bytes
  import CertChain

  const TWO_OCTETS: byte := 0x82

  function TwoBe(high: byte, low: byte): nat {
    256 * (high as nat) + low
  }

  /** The size of the certificate framed at an offset. */
  function Frame(chain: bytes, at: nat): (r: Option<nat>)
    ensures r.Some? ==> 4 <= r.value <= |chain| - at
  {
    if |chain| < at + 4 || chain[at] != CertChain.SEQUENCE || chain[at + 1] != TWO_OCTETS then None
    else
      var size := TwoBe(chain[at + 2], chain[at + 3]) + 4;
      if size > |chain| - at then None else Some(size)
  }

  /** Where the `k`-th certificate begins, if those before it can all be framed. */
  function Start(chain: bytes, k: nat): (r: Option<nat>)
    ensures r.Some? ==> 4 * k <= r.value <= |chain|
  {
    if k == 0 then Some(0)
    else
      match Start(chain, k - 1)
      case None => None
      case Some(at) => match Frame(chain, at) case None => None case Some(size) => Some(at + size)
  }

  lemma {:induction false} StartMonotone(chain: bytes, j: nat, k: nat)
    requires j < k && Start(chain, k).Some?
    ensures Start(chain, j).Some? && Start(chain, j).value < Start(chain, k).value
    decreases k
  {
    if j < k - 1 {
      StartMonotone(chain, j, k - 1);
    }
  }

  /** The bounds of certificate `k`, framed after those before it. */
  ghost predicate IsCert(chain: bytes, k: nat, cut: (nat, nat)) {
    Start(chain, k) == Some(cut.0) && Start(chain, k + 1) == Some(cut.1)
  }

  /** Certificate `k` is framed and ends the chain. */
  ghost predicate Ends(chain: bytes, k: nat) {
    Start(chain, k + 1) == Some(|chain|)
  }

  lemma StuckBeforeEnd(chain: bytes, k: nat)
    requires Start(chain, k).Some? && Start(chain, k + 1).None?
    requires k > 0 ==> !Ends(chain, k - 1)
    ensures forall j: nat :: !Ends(chain, j)
  {
    forall j: nat
      ensures !Ends(chain, j)
    {
      if j + 1 > k + 1 && Ends(chain, j) {
        StartMonotone(chain, k + 1, j + 1);
      } else if j + 1 < k {
        StartMonotone(chain, j + 1, k);
      }
    }
  }

  /** `get_cert_from_cert_chain`. A non-negative index asks for that certificate, and whatever follows it
      is not looked at; -1 asks for the last one, so the whole chain must be framed; there is nothing at
      any other index. */
  method GetCertFromCertChain(chain: bytes, index: int) returns (r: Outcome<(nat, nat)>)
    ensures r.Ok? || r == Err(InvalidCert)
    ensures index >= 0 && r.Ok? ==> IsCert(chain, index, r.value)
    ensures index >= 0 && !r.Ok? ==> Start(chain, index + 1).None?
    ensures index == -1 && r.Ok? ==> exists k: nat :: Ends(chain, k) && IsCert(chain, k, r.value)
    ensures index == -1 && !r.Ok? ==> forall k: nat :: !Ends(chain, k)
    ensures index < -1 ==> !r.Ok?
  {
    var offset: nat, thisIndex: nat := 0, 0;
    while true
      invariant Start(chain, thisIndex) == Some(offset)
      invariant index >= 0 ==> thisIndex <= index
      invariant index == -1 && thisIndex > 0 ==> !Ends(chain, thisIndex - 1)
      decreases |chain| - offset
    {
      if |chain[offset..]| < 4 || offset > |chain|
         || chain[offset] != CertChain.SEQUENCE || chain[offset + 1] != TWO_OCTETS {
        NotFramed(chain, index, thisIndex);
        return Err(InvalidCert);
      }
      var size := TwoBe(chain[offset + 2], chain[offset + 3]) + 4;
      if size > |chain| - offset {
        NotFramed(chain, index, thisIndex);
        return Err(InvalidCert);
      }
      assert Start(chain, thisIndex + 1) == Some(offset + size);
      if thisIndex == index {
        return Ok((offset, offset + size));
      }
      if offset + size == |chain| && index == -1 {
        assert Ends(chain, thisIndex) && IsCert(chain, thisIndex, (offset, offset + size));
        return Ok((offset, offset + size));
      }
      thisIndex := thisIndex + 1;
      offset := offset + size;
    }
    assert false;
  }

  lemma NotFramed(chain: bytes, index: int, k: nat)
    requires Start(chain, k).Some? && Start(chain, k + 1).None? && (index >= 0 ==> k <= index)
    requires index == -1 && k > 0 ==> !Ends(chain, k - 1)
    ensures index >= 0 ==> Start(chain, index + 1).None?
    ensures index == -1 ==> forall j: nat :: !Ends(chain, j)
  {
    if index == -1 {
      StuckBeforeEnd(chain, k);
    } else if index > k && Start(chain, index + 1).Some? {
      StartMonotone(chain, k + 1, index + 1);
    }
  }

  // Agreement with the DER walker

  /** The certificate at `at` gives its length in two octets. */
  predicate LongForm(chain: bytes, at: nat) {
    at + 1 < |chain| && chain[at + 1] == TWO_OCTETS
  }

  /** A certificate the walker accepts is framed by the splitter at the same size exactly when its length
      takes two octets. */
  lemma CertFramed(chain: bytes, at: nat, want: Option<bytes>)
    requires at <= |chain| && CertChain.CertWith(chain[at..], want).Ok?
    ensures LongForm(chain, at) ==> Frame(chain, at) == Some(CertChain.CertWith(chain[at..], want).value)
    ensures !LongForm(chain, at) ==> Frame(chain, at).None?
  {
    if LongForm(chain, at) {
      var data := chain[at..][1..];
      assert data[0] == TWO_OCTETS;
      TwoOctets(data);
    }
  }

  lemma TwoOctets(data: bytes)
    requires |data| >= 1 && data[0] == TWO_OCTETS && CertChain.DerLength(data).Ok?
    ensures |data| >= 3 && CertChain.DerLength(data).value == CertChain.Length(TwoBe(data[1], data[2]), 3)
  {
    var octets := data[1..3];
    assert octets[..1][..0] == [] && FromBe(octets[..1]) == data[1];
  }

  /** One step of the splitter over the walker's bounds. */
  lemma FramedAt(chain: bytes, oid: Option<bytes>, bounds: seq<nat>, k: nat)
    requires CertChain.Certificates(chain, oid, bounds) && k < |bounds|
    ensures Frame(chain, bounds[k]).Some? <==> k + 1 < |bounds| && LongForm(chain, bounds[k])
    ensures Frame(chain, bounds[k]).Some? ==> bounds[k] + Frame(chain, bounds[k]).value == bounds[k + 1]
  {
    if k + 1 < |bounds| {
      assert CertChain.CertAt(chain, oid, bounds, k);
      CertFramed(chain, bounds[k], if k == |bounds| - 2 then oid else None);
    }
  }

  /** On a chain the walker accepts, the splitter finds certificate `k - 1` exactly when all certificates
      up to it give their length in two octets, and then at the walker's bounds. */
  lemma {:induction false} SplitterFollowsWalker(chain: bytes, oid: Option<bytes>, bounds: seq<nat>, k: nat)
    requires CertChain.Certificates(chain, oid, bounds)
    ensures Start(chain, k).Some? <==> k < |bounds| && forall i :: 0 <= i < k ==> LongForm(chain, bounds[i])
    ensures Start(chain, k).Some? ==> Start(chain, k).value == bounds[k]
  {
    if k > 0 {
      SplitterFollowsWalker(chain, oid, bounds, k - 1);
      if k - 1 < |bounds| {
        FramedAt(chain, oid, bounds, k - 1);
      }
    }
  }

  /** The leaf is found exactly on a non-empty chain all of whose certificates give their length in two
      octets, and it is the walker's last certificate. */
  lemma LeafFollowsWalker(chain: bytes, oid: Option<bytes>, bounds: seq<nat>, k: nat)
    requires CertChain.Certificates(chain, oid, bounds)
    ensures Ends(chain, k) <==> k == |bounds| - 2 && forall i :: 0 <= i < |bounds| - 1 ==> LongForm(chain, bounds[i])
  {
    SplitterFollowsWalker(chain, oid, bounds, k + 1);
    if k + 2 < |bounds| {
      assert CertChain.CertAt(chain, oid, bounds, k + 1);
    }
  }
}
