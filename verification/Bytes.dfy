/** Bytes, the two integer representations the protocol uses, and byte-wise XOR.
    Shifts and masks of the source are written as division and remainder by 256. */
module Bytes {

  type byte = b: int | 0 <= b < 0x100

  type bytes = seq<byte>

  /** The status codes returned by the modelled operations. */
  datatype Status =
    | BufferFull
    | BufferTooSmall
    | CryptoError
    | DecapFail
    | DecapAppFail
    | DecodeAeadFail
    | EncapFail
    | EncapAppFail
    | InvalidCert
    | InvalidMsgField
    | InvalidParameter
    | InvalidStateLocal
    | Malformed // a reader's `None`
    | SequenceNumberOverflow
    | SessionNumberExceed
    | UnsupportedCap
    | VerifFail

  datatype Option<+T> = None | Some(value: T)

  /** The result of an operation: a value, a status code, or a Rust panic. */
  datatype Outcome<+T> = Ok(value: T) | Err(status: Status) | Abort {

    predicate IsFailure() {
      !Ok?
    }

    function PropagateFailure<U>(): Outcome<U>
      requires IsFailure()
    {
      match this
      case Err(s) => Err(s)
      case Abort => Abort
    }

    function Extract(): T
      requires !IsFailure()
    {
      value
    }
  }

  function Pow256(n: nat): (p: nat)
    ensures p >= 1
  {
    if n == 0 then 1 else 256 * Pow256(n - 1)
  }

  const U64_MAX: nat := 0xFFFF_FFFF_FFFF_FFFF

  /** `((v >> (8 * i)) & 0xFF) as u8` */
  function ByteAt(v: nat, i: nat): byte
    decreases i
  {
    if i == 0 then v % 256 else ByteAt(v / 256, i - 1)
  }

  /** The `n` low bytes of `v`, least significant first. */
  function Le(v: nat, n: nat): (s: bytes)
    ensures |s| == n
  {
    seq(n, i requires 0 <= i => ByteAt(v, i))
  }

  function FromLe(s: bytes): (v: nat)
  {
    if s == [] then 0 else s[0] + 256 * FromLe(s[1..])
  }

  function FromBe(s: bytes): (v: nat)
  {
    if s == [] then 0 else 256 * FromBe(s[..|s| - 1]) + s[|s| - 1]
  }

  function Reversed(s: bytes): (r: bytes)
    ensures |r| == |s|
    ensures forall i :: 0 <= i < |s| ==> r[i] == s[|s| - 1 - i]
  {
    seq(|s|, i requires 0 <= i < |s| => s[|s| - 1 - i])
  }

  lemma LeTail(v: nat, n: nat)
    requires n > 0
    ensures Le(v, n) == [v % 256] + Le(v / 256, n - 1)
  {
  }

  lemma {:induction false} FromLeOfLe(v: nat, n: nat)
    requires v < Pow256(n)
    ensures FromLe(Le(v, n)) == v
    decreases n
  {
    if n > 0 {
      FromLeOfLe(v / 256, n - 1);
      LeTail(v, n);
      assert Le(v, n)[1..] == Le(v / 256, n - 1);
    }
  }

  lemma {:induction false} LeOfFromLe(s: bytes)
    ensures FromLe(s) < Pow256(|s|)
    ensures Le(FromLe(s), |s|) == s
  {
    if s != [] {
      LeOfFromLe(s[1..]);
      LeTail(FromLe(s), |s|);
      assert FromLe(s) % 256 == s[0] && FromLe(s) / 256 == FromLe(s[1..]);
    }
  }

  lemma DivUnique(a: nat, d: nat, q: nat, r: nat)
    requires a == q * d + r && r < d
    ensures a / d == q
  {
    var k: int := a / d - q;
    assert k * d == r - a % d;
    assert k >= 1 ==> k * d >= d;
    assert k <= -1 ==> k * d + d <= 0;
  }

  lemma Regrouped(b: nat, c: nat, q: nat, r: nat)
    ensures b * (c * q + r) == q * (b * c) + b * r
  {
    assert b * (c * q) == b * c * q;
  }

  lemma {:induction false} Below(b: nat, c: nat, r: nat, m: nat)
    requires r < c && m < b
    ensures b * r + m < b * c
    decreases c
  {
    assert b * c == b * (c - 1) + b;
    if r < c - 1 {
      Below(b, c - 1, r, m);
    }
  }

  lemma DivDivFrom(a: nat, b: nat, c: nat, x: nat, m: nat, q: nat, r: nat)
    requires b > 0 && c > 0 && a == b * x + m && m < b && x == c * q + r && r < c
    ensures b * c > 0 && a / (b * c) == q
  {
    Regrouped(b, c, q, r);
    Below(b, c, r, m);
    DivUnique(a, b * c, q, b * r + m);
  }

  lemma DivMod(a: nat, b: nat)
    requires b > 0
    ensures a == b * (a / b) + a % b && a % b < b
  {
  }

  /** Dividing twice. */
  lemma DivDiv(a: nat, b: nat, c: nat)
    requires b > 0 && c > 0
    ensures b * c > 0 && a / (b * c) == a / b / c
  {
    var x := a / b;
    DivMod(a, b);
    DivMod(x, c);
    DivDivFrom(a, b, c, x, a % b, x / c, x % c);
  }

  lemma {:induction false} ByteAtIs(v: nat, i: nat)
    ensures ByteAt(v, i) == v / Pow256(i) % 256
    decreases i
  {
    if i > 0 {
      ByteAtIs(v / 256, i - 1);
      DivDiv(v, 256, Pow256(i - 1));
    }
  }

  /** The `i`-th byte written is the `i`-th least significant one. */
  lemma LeAt(v: nat, n: nat, i: nat)
    requires i < n
    ensures Le(v, n)[i] == v / Pow256(i) % 256
  {
    ByteAtIs(v, i);
  }

  lemma LeInjective(v: nat, w: nat, n: nat)
    requires v < Pow256(n) && w < Pow256(n)
    requires Le(v, n) == Le(w, n)
    ensures v == w
  {
    FromLeOfLe(v, n);
    FromLeOfLe(w, n);
  }

  lemma Pow256Values()
    ensures Pow256(1) == 0x100
    ensures Pow256(2) == 0x1_0000
    ensures Pow256(3) == 0x100_0000
    ensures Pow256(4) == 0x1_0000_0000
    ensures Pow256(8) == U64_MAX + 1
  {
    assert Pow256(4) == 256 * Pow256(3) == 256 * (256 * Pow256(2));
    assert Pow256(8) == 256 * Pow256(7) == 256 * (256 * Pow256(6));
    assert Pow256(6) == 256 * Pow256(5) == 256 * (256 * Pow256(4));
  }

  lemma {:induction false} Pow256Grows(m: nat, n: nat)
    requires m <= n
    ensures Pow256(m) <= Pow256(n)
    decreases n
  {
    if m < n {
      Pow256Grows(m, n - 1);
    }
  }

  /** The values of `|s|` octets, and the largest of them. */
  lemma {:induction false} FromBeBound(s: bytes)
    ensures FromBe(s) < Pow256(|s|)
    ensures (forall i :: 0 <= i < |s| ==> s[i] == 0xFF) ==> FromBe(s) == Pow256(|s|) - 1
  {
    if s != [] {
      FromBeBound(s[..|s| - 1]);
    }
  }

  lemma {:induction false} FromLeZeros(s: bytes, n: nat)
    ensures FromLe(s + seq(n, _ => 0)) == FromLe(s)
    decreases |s| + n
  {
    var zeros: bytes := seq(n, _ => 0);
    if s != [] {
      FromLeZeros(s[1..], n);
      assert (s + zeros)[1..] == s[1..] + zeros;
    } else if n > 0 {
      FromLeZeros([], n - 1);
      assert (s + zeros)[1..] == [] + seq(n - 1, _ => 0);
    } else {
      assert s + zeros == s;
    }
  }

  lemma {:induction false} FromLeReversed(s: bytes)
    ensures FromLe(Reversed(s)) == FromBe(s)
  {
    if s != [] {
      FromLeReversed(s[..|s| - 1]);
      assert Reversed(s)[1..] == Reversed(s[..|s| - 1]);
    }
  }

  /** Leading zeros do not change a big-endian value. */
  lemma {:induction false} FromBeLeadingZeros(s: bytes, k: nat)
    requires k <= |s|
    requires forall i :: 0 <= i < k ==> s[i] == 0
    ensures FromBe(s) == FromBe(s[k..])
    decreases |s|
  {
    if k == |s| && k > 0 {
      FromBeLeadingZeros(s[..k - 1], k - 1);
      assert s[..k - 1][k - 1..] == [];
    } else if k < |s| {
      FromBeLeadingZeros(s[..|s| - 1], k);
      assert s[..|s| - 1][k..] == s[k..][..|s| - k - 1];
    }
  }

  /** XOR of the low `n` bits. */
  function XorBits(a: nat, b: nat, n: nat): nat
    decreases n
  {
    if n == 0 then 0 else (a + b) % 2 + 2 * XorBits(a / 2, b / 2, n - 1)
  }

  function Pow2(n: nat): (p: nat)
    ensures p >= 1
  {
    if n == 0 then 1 else 2 * Pow2(n - 1)
  }

  lemma XorStep(a: nat, b: nat, rest: nat)
    ensures ((a + b) % 2 + 2 * rest) / 2 == rest
    ensures (a + ((a + b) % 2 + 2 * rest)) % 2 == b % 2
  {
    assert (a + b) % 2 == if a % 2 == b % 2 then 0 else 1;
  }

  lemma {:induction false} XorBitsInvolution(a: nat, b: nat, n: nat)
    requires b < Pow2(n)
    ensures XorBits(a, b, n) < Pow2(n)
    ensures XorBits(a, XorBits(a, b, n), n) == b
    decreases n
  {
    if n > 0 {
      var rest := XorBits(a / 2, b / 2, n - 1);
      XorBitsInvolution(a / 2, b / 2, n - 1);
      XorStep(a, b, rest);
    }
  }

  function Xor(a: byte, b: byte): (r: byte)
  {
    XorBitsInvolution(a, b, 8);
    assert Pow2(8) == 2 * Pow2(7) == 2 * (2 * Pow2(6)) && Pow2(6) == 2 * (2 * Pow2(4));
    XorBits(a, b, 8)
  }

  lemma XorCancels(a: byte, b: byte)
    ensures Xor(a, Xor(a, b)) == b
  {
    assert Pow2(8) == 2 * Pow2(7) == 2 * (2 * Pow2(6)) && Pow2(6) == 2 * (2 * Pow2(4));
    XorBitsInvolution(a, b, 8);
  }

  lemma {:induction false} XorBitsAt(a: nat, b: nat, n: nat, i: nat)
    requires i < n
    ensures XorBits(a, b, n) / Pow2(i) % 2 == (a / Pow2(i) + b / Pow2(i)) % 2
    decreases n
  {
    if i == 0 {
      LowBit(a, b, XorBits(a / 2, b / 2, n - 1));
    } else {
      XorBitsAt(a / 2, b / 2, n - 1, i - 1);
      HigherBit(a, b, XorBits(a, b, n), XorBits(a / 2, b / 2, n - 1), i);
    }
  }

  lemma LowBit(a: nat, b: nat, rest: nat)
    ensures ((a + b) % 2 + 2 * rest) / 1 % 2 == (a / 1 + b / 1) % 2
  {
  }

  lemma HigherBit(a: nat, b: nat, x: nat, rest: nat, i: nat)
    requires i > 0 && x == (a + b) % 2 + 2 * rest
    requires rest / Pow2(i - 1) % 2 == (a / 2 / Pow2(i - 1) + b / 2 / Pow2(i - 1)) % 2
    ensures x / Pow2(i) % 2 == (a / Pow2(i) + b / Pow2(i)) % 2
  {
    XorStep(a, b, rest);
    HalfThenShift(x, i);
    HalfThenShift(a, i);
    HalfThenShift(b, i);
  }

  lemma HalfThenShift(a: nat, i: nat)
    requires i > 0
    ensures a / Pow2(i) == a / 2 / Pow2(i - 1)
  {
    DivDiv(a, 2, Pow2(i - 1));
  }

  /** Every bit of the result is the exclusive or of the two bits at its place. */
  lemma XorBitwise(a: byte, b: byte, i: nat)
    requires i < 8
    ensures Xor(a, b) / Pow2(i) % 2 == (a / Pow2(i) + b / Pow2(i)) % 2
  {
    XorBitsAt(a, b, 8, i);
  }

  /** The parts one after the other. */
  function Flat(parts: seq<bytes>): bytes {
    if parts == [] then [] else parts[0] + Flat(parts[1..])
  }

  lemma {:induction false} FlatSplit(parts: seq<bytes>, i: nat)
    requires i <= |parts|
    ensures Flat(parts) == Flat(parts[..i]) + Flat(parts[i..])
    decreases i
  {
    if i > 0 {
      FlatSplit(parts[1..], i - 1);
      assert parts[1..][..i - 1] == parts[..i][1..] && parts[1..][i - 1..] == parts[i..];
    } else {
      assert parts[0..] == parts;
    }
  }

  /** The slices of a concatenation. */
  lemma PartsOf(a: bytes, b: bytes, c: bytes, rest: bytes)
    ensures var w := a + b + c + rest;
            && w[..|a|] == a
            && w[|a|..|a| + |b|] == b
            && w[|a| + |b|..|a| + |b| + |c|] == c
            && w[..|a| + |b| + |c|] == a + b + c
  {
  }

  /** `b` with the bytes from `at` on overwritten by `s`. */
  function Spliced(b: bytes, at: nat, s: bytes): (r: bytes)
    requires at + |s| <= |b|
    ensures |r| == |b|
  {
    b[..at] + s + b[at + |s|..]
  }

  lemma SpliceTwice(b: bytes, at: nat, s: bytes, t: bytes)
    requires at + |s| + |t| <= |b|
    ensures Spliced(Spliced(b, at, s), at + |s|, t) == Spliced(b, at, s + t)
  {
    var once := Spliced(b, at, s);
    assert once[..at + |s|] == b[..at] + s;
    assert once[at + |s| + |t|..] == b[at + |s| + |t|..];
  }

  /** One more byte of `all` written at the cursor. */
  /** Three parts put next to each other, the middle one first. */
  lemma SpliceThree(b: bytes, x: bytes, y: bytes, z: bytes)
    requires |x| + |y| + |z| <= |b|
    ensures Spliced(Spliced(Spliced(b, |x|, y), 0, x), |x| + |y|, z) == Spliced(b, 0, x + y + z)
  {
    assert Spliced(Spliced(b, |x|, y), 0, x) == Spliced(b, 0, x + y);
    SpliceTwice(b, 0, x + y, z);
  }

  lemma SpliceNext(b: bytes, at: nat, all: bytes, i: nat)
    requires i < |all| && at + i < |b|
    ensures Spliced(Spliced(b, at, all[..i]), at + i, [all[i]]) == Spliced(b, at, all[..i + 1])
  {
    SpliceTwice(b, at, all[..i], [all[i]]);
    assert all[..i] + [all[i]] == all[..i + 1];
  }

  /** What a read of the spliced range, or of a prefix ending in it, sees. */
  lemma SplicedReads(b: bytes, at: nat, s: bytes)
    requires at + |s| <= |b|
    ensures Spliced(b, at, s)[at..at + |s|] == s
    ensures Spliced(b, at, s)[..at + |s|] == b[..at] + s
  {
  }

  /** `dst[at..at + src.len()].copy_from_slice(src)` */
  method CopyInto(dst: array<byte>, at: nat, src: bytes)
    requires at + |src| <= dst.Length
    modifies dst
    ensures dst[..] == Spliced(old(dst[..]), at, src)
    ensures dst[at..at + |src|] == src && dst[..at] == old(dst[..at])
  {
    forall i | 0 <= i < |src| {
      dst[at + i] := src[i];
    }
    assert dst[at..at + |src|] == src;
    assert dst[..] == dst[..at] + dst[at..at + |src|] + dst[at + |src|..];
  }
}
