/** The fixed-size transcript buffers. They differ only in capacity. */
module ManagedBuffer {
  import opened Bytes
  import opened Codec

  const MAX_HASH_SIZE: nat := 64
  const MAX_ASYM_KEY_SIZE: nat := 512
  const MAX_DHE_KEY_SIZE: nat := 96
  const MAX_OPAQUE_SIZE: nat := 1024
  const NONCE_SIZE: nat := 32
  const SLOTS: nat := 8

  const MAX_A: nat := 150 + 2 * 3
  const MAX_C: nat := 78 + MAX_HASH_SIZE * 2 + MAX_ASYM_KEY_SIZE + MAX_OPAQUE_SIZE
  const MAX_K: nat := 84 + MAX_DHE_KEY_SIZE * 2 + MAX_HASH_SIZE * 2 + MAX_ASYM_KEY_SIZE + MAX_OPAQUE_SIZE * 2
  const MAX_F: nat := 8 + MAX_HASH_SIZE * 2 + MAX_ASYM_KEY_SIZE

  /** The capacities that depend on the configured certificate chain and measurement record sizes. */
  function MaxB(certSize: nat): nat {
    24 + MAX_HASH_SIZE * SLOTS + certSize
  }

  function MaxM(recordSize: nat): nat {
    47 + NONCE_SIZE + recordSize + MAX_ASYM_KEY_SIZE + MAX_OPAQUE_SIZE
  }

  function MaxTh(certSize: nat): nat {
    MAX_A + certSize + MAX_K + certSize + MAX_F
  }

  class Buffer {
    const data: array<byte>
    var used: nat

    ghost predicate Valid()
      reads this
    {
      used <= data.Length
    }

    ghost function Contents(): bytes
      requires Valid()
      reads this, data
    {
      data[..used]
    }

    constructor (capacity: nat)
      ensures Valid() && Contents() == [] && data.Length == capacity && fresh(data)
    {
      data := new byte[capacity](_ => 0);
      used := 0;
    }

    method AppendMessage(message: bytes) returns (r: Option<nat>)
      requires Valid()
      modifies this, data
      ensures Valid()
      ensures r.Some? <==> |old(Contents())| + |message| <= data.Length
      ensures Contents() == if r.Some? then old(Contents()) + message else old(Contents())
    {
      var writer := new Writer(data, used);
      var written := writer.ExtendFromSlice(message);
      if written.None? {
        return None;
      }
      SplicedReads(old(data[..]), used, message);
      used := used + written.value;
      r := Some(writer.offs);
    }

    method ResetMessage()
      modifies this
      ensures Valid() && Contents() == []
    {
      used := 0;
    }
  }
}
