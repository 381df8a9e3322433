/** The byte-array primitives of the .NET runtime that the password
    manager uses: a zero-initialised `new byte[n]` and `Buffer.BlockCopy`.
    Arrays are modelled as immutable sequences; a copy into an array is a
    function returning the updated destination. */
module Buffer {

  type byte = bv8

  /** `new byte[n]`: the runtime zero-initialises every element. */
  function Zeros(n: nat): (r: seq<byte>)
    ensures |r| == n
    ensures forall k :: 0 <= k < n ==> r[k] == 0
  {
    seq(n, _ => 0)
  }

  /** `Buffer.BlockCopy(src, srcOffset, dst, dstOffset, count)`: the
      destination after `count` bytes of `src`, starting at `srcOffset`,
      are written into it starting at `dstOffset`. Every call in the
      password manager stays in range, so the runtime's range exception is
      excluded by the precondition. */
  function BlockCopy(src: seq<byte>, srcOffset: nat, dst: seq<byte>, dstOffset: nat, count: nat): (r: seq<byte>)
    requires srcOffset + count <= |src|
    requires dstOffset + count <= |dst|
    ensures |r| == |dst|
    ensures forall k :: dstOffset <= k < dstOffset + count ==> r[k] == src[srcOffset + (k - dstOffset)]
    ensures forall k :: 0 <= k < |dst| && !(dstOffset <= k < dstOffset + count) ==> r[k] == dst[k]
  {
    dst[..dstOffset] + src[srcOffset..srcOffset + count] + dst[dstOffset + count..]
  }
}
