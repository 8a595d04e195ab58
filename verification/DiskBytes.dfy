/** Bytes and blocks of bytes, as the disk layers see them. */
module DiskBytes {
  const BLOCK_SIZE: nat := 512
  /** The block size of the distributed file system. */
  const DFS_BLOCK_SIZE: nat := 1024

  type Byte = x: int | 0 <= x < 256

  function Zeros(n: nat): (r: seq<Byte>)
    ensures |r| == n && forall i: nat :: i < n ==> r[i] == 0
  {
    seq(n, _ => 0)
  }

  /** How many of the remaining bytes one round of a transfer moves: up to the end
      of the block that the offset is in. */
  function ToCopy(remaining: nat, offset: nat): (c: nat)
    requires offset < BLOCK_SIZE
    ensures offset + c <= BLOCK_SIZE && c <= remaining
    ensures c == remaining || offset + c == BLOCK_SIZE
    ensures remaining > 0 ==> c > 0
  {
    if remaining + offset >= BLOCK_SIZE then BLOCK_SIZE - offset else remaining
  }

  /** memcpy of src into tmp at offset off. */
  function Overlay(tmp: seq<Byte>, off: nat, src: seq<Byte>): (r: seq<Byte>)
    requires off + |src| <= |tmp|
    ensures |r| == |tmp|
    ensures forall k: nat {:trigger r[k]} :: k < |r| ==> r[k] == if off <= k < off + |src| then src[k - off] else tmp[k]
  {
    tmp[..off] + src + tmp[off + |src|..]
  }
}
