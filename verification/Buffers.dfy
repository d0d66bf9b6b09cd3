/** Copying into a byte array. */
module Buffers {
  import opened Utf8

  /** Writes `out` at `dst`. */
  method Put(b: array<Byte>, dst: nat, out: Bytes)
    requires dst + |out| <= b.Length
    modifies b
    ensures b[..] == old(b[..dst]) + out + old(b[dst + |out|..])
  {
    forall k | 0 <= k < |out| {
      b[dst + k] := out[k];
    }
  }
}
