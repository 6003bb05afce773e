/** The `Reader` and `Writer` cursors and the little-endian integer codecs. */
module Codec {
  import opened Bytes

  /** A cursor over an immutable slice. */
  class Reader {
    const buf: bytes
    var offs: nat

    ghost predicate Valid()
      reads this
    {
      offs <= |buf|
    }

    constructor (buf: bytes)
      ensures Valid() && this.buf == buf && offs == 0
    {
      this.buf := buf;
      offs := 0;
    }

    method Take(len: nat) returns (r: Option<bytes>)
      requires Valid()
      modifies this
      ensures Valid()
      ensures r.Some? <==> old(offs) + len <= |buf|
      ensures r.Some? ==> offs == old(offs) + len && r.value == buf[old(offs)..offs]
      ensures r.None? ==> offs == old(offs)
    {
      if |buf| - offs < len {
        return None;
      }
      var current := offs;
      offs := offs + len;
      return Some(buf[current..current + len]);
    }

    /** The common shape of the fixed-width reads: take the bytes, combine them with shifts. */
    method ReadLe(width: nat) returns (r: Option<nat>)
      requires Valid()
      modifies this
      ensures Valid()
      ensures r.Some? <==> old(offs) + width <= |buf|
      ensures r.Some? ==> offs == old(offs) + width && r.value == FromLe(buf[old(offs)..offs])
      ensures r.Some? ==> r.value < Pow256(width)
      ensures r.None? ==> offs == old(offs)
    {
      var taken := Take(width);
      if taken.None? {
        return None;
      }
      LeOfFromLe(taken.value);
      r := Some(FromLe(taken.value));
    }

    method ReadU8() returns (r: Option<byte>)
      requires Valid()
      modifies this
      ensures Valid()
      ensures r.Some? <==> old(offs) < |buf|
      ensures r.Some? ==> offs == old(offs) + 1 && r.value == buf[old(offs)]
      ensures r.None? ==> offs == old(offs)
    {
      var taken := Take(1);
      if taken.None? {
        return None;
      }
      r := Some(taken.value[0]);
    }
  }

  /** A cursor over the mutable slice `buf[base..]`. */
  class Writer {
    const buf: array<byte>
    const base: nat
    var offs: nat

    ghost predicate Valid()
      reads this
    {
      base + offs <= buf.Length
    }

    constructor (buf: array<byte>, base: nat)
      requires base <= buf.Length
      ensures Valid() && this.buf == buf && this.base == base && offs == 0
    {
      this.buf := buf;
      this.base := base;
      offs := 0;
    }

    /** What the underlying array holds once `value` is written at the cursor. */
    ghost function WithWritten(value: bytes): bytes
      requires Valid()
      requires base + offs + |value| <= buf.Length
      reads this, buf
    {
      Spliced(buf[..], base + offs, value)
    }

    method ExtendFromSlice(value: bytes) returns (r: Option<nat>)
      requires Valid()
      modifies this, buf
      ensures Valid()
      ensures r.Some? <==> old(base + offs) + |value| <= buf.Length
      ensures r.Some? ==> offs == old(offs) + |value| && buf[..] == old(WithWritten(value))
      ensures r.Some? ==> r.value == |value|
      ensures r.None? ==> offs == old(offs) && buf[..] == old(buf[..])
    {
      if buf.Length - base - offs < |value| {
        return None;
      }
      for i := 0 to |value|
        invariant offs == old(offs)
        invariant forall j :: 0 <= j < i ==> buf[base + offs + j] == value[j]
        invariant forall j :: 0 <= j < base + offs || base + offs + i <= j < buf.Length ==> buf[j] == old(buf[j])
      {
        buf[base + offs + i] := value[i];
      }
      offs := offs + |value|;
      return Some(|value|);
    }

    method Push(value: byte) returns (ok: bool)
      requires Valid()
      modifies this, buf
      ensures Valid()
      ensures ok <==> old(base + offs) < buf.Length
      ensures ok ==> offs == old(offs) + 1 && buf[..] == old(WithWritten([value]))
      ensures !ok ==> offs == old(offs) && buf[..] == old(buf[..])
    {
      if buf.Length - base - offs < 1 {
        return false;
      }
      buf[base + offs] := value;
      offs := offs + 1;
      ok := true;
    }

    /** `u16` and `u64`: the bytes are assembled first, so nothing is written when they do not fit. */
    method EncodeWhole(v: nat, width: nat) returns (ok: bool)
      requires Valid()
      modifies this, buf
      ensures Valid()
      ensures ok <==> old(base + offs) + width <= buf.Length
      ensures ok ==> offs == old(offs) + width && buf[..] == old(WithWritten(Le(v, width)))
      ensures !ok ==> offs == old(offs) && buf[..] == old(buf[..])
    {
      var r := ExtendFromSlice(Le(v, width));
      ok := r.Some?;
    }

    /** `u24` and `u32`: pushed byte by byte, so a short buffer is left filled to its end. */
    method EncodePushed(v: nat, width: nat) returns (ok: bool)
      requires Valid()
      modifies this, buf
      ensures Valid()
      ensures ok <==> old(base + offs) + width <= buf.Length
      ensures ok ==> offs == old(offs) + width && buf[..] == old(WithWritten(Le(v, width)))
      ensures !ok ==> base + offs == buf.Length && offs >= old(offs)
      ensures !ok ==> offs - old(offs) < width && buf[..] == Spliced(old(buf[..]), base + old(offs), Le(v, width)[..offs - old(offs)])
    {
      ghost var before, start, all := buf[..], base + offs, Le(v, width);
      for i := 0 to width
        invariant Valid() && base + offs == start + i
        invariant buf[..] == Spliced(before, start, all[..i])
      {
        var pushed := Push(ByteAt(v, i));
        if !pushed {
          return false;
        }
        SpliceNext(before, start, all, i);
      }
      assert all[..width] == all;
      ok := true;
    }
  }

  /** Since it held `before`, the buffer has received `s` at `at`. */
  ghost predicate Emitted(w: Writer, before: bytes, at: nat, s: bytes)
    reads w, w.buf
  {
    && w.Valid() && at + |s| == w.base + w.offs && |before| == w.buf.Length
    && w.buf[..] == Spliced(before, at, s)
  }

  method EmitByte(w: Writer, b: byte, ghost before: bytes, ghost at: nat, ghost s: bytes) returns (ok: bool)
    requires Emitted(w, before, at, s)
    modifies w, w.buf
    ensures ok <==> at + |s| + 1 <= |before|
    ensures ok ==> Emitted(w, before, at, s + [b])
  {
    ok := w.Push(b);
    if ok {
      SpliceTwice(before, at, s, [b]);
    }
  }

  method EmitU16(w: Writer, v: nat, ghost before: bytes, ghost at: nat, ghost s: bytes) returns (ok: bool)
    requires Emitted(w, before, at, s)
    modifies w, w.buf
    ensures ok <==> at + |s| + 2 <= |before|
    ensures ok ==> Emitted(w, before, at, s + Le(v, 2))
  {
    ok := w.EncodeWhole(v, 2);
    if ok {
      SpliceTwice(before, at, s, Le(v, 2));
    }
  }

  method EmitU24(w: Writer, v: nat, ghost before: bytes, ghost at: nat, ghost s: bytes) returns (ok: bool)
    requires Emitted(w, before, at, s)
    modifies w, w.buf
    ensures ok <==> at + |s| + 3 <= |before|
    ensures ok ==> Emitted(w, before, at, s + Le(v, 3))
  {
    ok := w.EncodePushed(v, 3);
    if ok {
      SpliceTwice(before, at, s, Le(v, 3));
    }
  }

  method EmitSlice(w: Writer, value: bytes, ghost before: bytes, ghost at: nat, ghost s: bytes) returns (ok: bool)
    requires Emitted(w, before, at, s)
    modifies w, w.buf
    ensures ok <==> at + |s| + |value| <= |before|
    ensures ok ==> Emitted(w, before, at, s + value)
  {
    var r := w.ExtendFromSlice(value);
    ok := r.Some?;
    if ok {
      SpliceTwice(before, at, s, value);
    }
  }

  /** An integer written by either encoder is read back, wherever it sits in the buffer. */
  lemma ReadBack(v: nat, width: nat, before: bytes, after: bytes)
    requires v < Pow256(width)
    ensures FromLe((before + Le(v, width) + after)[|before|..|before| + width]) == v
  {
    assert (before + Le(v, width) + after)[|before|..|before| + width] == Le(v, width);
    FromLeOfLe(v, width);
  }
}
