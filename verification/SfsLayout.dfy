/** Block layout of the simple file system (SFS): the structs that fill one
    512-byte block, and the backing file seen as a sequence of blocks. */
module SfsLayout {
  import opened DiskBytes

  const FRAME_COUNT: nat := 127
  /** Bytes of content that one frame addresses. */
  const FRAME_SIZE: nat := 65024
  const DIR_SLOTS: nat := 97
  const MAX_OPENED_FILES: nat := 32
  const MAX_DIR_NAME: nat := 120
  const MAX_FILE_NAME: nat := 504
  const SFS_MAGIC: nat := 0xAABB_CCDD
  const SFS_NBLOCKS: nat := 1024
  /** Words in the one freemap block, and the largest id they can hand out. */
  const FREEMAP_WORDS: nat := 128
  const MAX_BLOCK_ID: nat := 4096

  datatype Superblock = Superblock(magic: nat, nblocks: nat, nfreemapBlocks: nat, firstDir: nat)
  datatype Dir = Dir(nextDir: nat, dirName: string, inodes: seq<nat>)
  datatype Inode = Inode(size: nat, firstFrame: nat, fileName: string)
  datatype Frame = Frame(next: nat, content: seq<nat>)

  /** A name of plain bytes without NUL that fits, with its NUL, into a field of n bytes. */
  ghost predicate NameFits(s: string, n: nat) {
    |s| < n && forall i: nat :: i < |s| ==> 0 < s[i] as int < 256
  }

  /** A block as it was last written: one of the structs, or raw bytes. */
  datatype Block =
    | SuperBlock(sb: Superblock)
    | FreemapBlock(words: seq<bv32>)
    | DirBlock(dir: Dir)
    | InodeBlock(inode: Inode)
    | FrameBlock(frame: Frame)
    | DataBlock(bytes: seq<Byte>)

  const ZeroBlock := DataBlock(Zeros(BLOCK_SIZE))

  /** What the backing file holds at block b; holes and the space past the end
      count as zeros. */
  function At(disk: seq<Block>, b: nat): Block {
    if b < |disk| then disk[b] else ZeroBlock
  }

  /** fread of block b into tmp: past the end of the file it leaves tmp as it is. */
  function RawRead(disk: seq<Block>, b: nat, tmp: seq<Byte>): seq<Byte> {
    if b < |disk| then Raw(disk[b]) else tmp
  }

  /** Writing one block; the file grows with a zero-filled hole if needed. */
  function Put(disk: seq<Block>, b: nat, block: Block): (r: seq<Block>)
    ensures At(r, b) == block && |r| == if b < |disk| then |disk| else b + 1
    ensures Agree(disk, r, {b})
  {
    if b < |disk| then disk[b := block]
    else disk + seq(b - |disk|, _ => ZeroBlock) + [block]
  }

  /** The two disks hold the same blocks outside of s, and none was cut off. */
  ghost predicate Agree(d: seq<Block>, d': seq<Block>, s: set<nat>) {
    && |d| <= |d'|
    && forall b: nat {:trigger At(d', b)} :: b !in s ==> At(d', b) == At(d, b)
  }

  lemma AgreeTransitive(d0: seq<Block>, d1: seq<Block>, d2: seq<Block>, s: set<nat>, t: set<nat>)
    requires Agree(d0, d1, s) && Agree(d1, d2, t)
    ensures Agree(d0, d2, s + t)
  {
    forall b: nat | b !in s + t ensures At(d2, b) == At(d0, b) {
      assert At(d1, b) == At(d0, b);
    }
  }

  // ----- the bytes of a struct, as a C program on a little-endian machine lays them out

  /** Four bytes, the lowest first. */
  function Word(x: nat): (r: seq<Byte>)
    ensures |r| == 4
  {
    [x % 256, x / 256 % 256, x / 65536 % 256, x / 16777216 % 256]
  }

  function Words(xs: seq<nat>): (r: seq<Byte>)
    ensures |r| == 4 * |xs|
  {
    if xs == [] then [] else Word(xs[0]) + Words(xs[1..])
  }

  /** strncpy: at most n characters, padded with NUL bytes up to n. */
  function NameField(s: string, n: nat): (r: seq<Byte>)
    ensures |r| == n
  {
    seq(n, i requires 0 <= i < n => if i < |s| then s[i] as int % 256 else 0)
  }

  function WordValues(words: seq<bv32>): (r: seq<nat>)
    ensures |r| == |words|
  {
    seq(|words|, i requires 0 <= i < |words| => words[i] as nat)
  }

  function Bytes(b: Block): seq<Byte> {
    match b
    case SuperBlock(sb) => Words([sb.magic, sb.nblocks, sb.nfreemapBlocks, sb.firstDir]) + Zeros(BLOCK_SIZE - 16)
    case FreemapBlock(words) => Words(WordValues(words))
    case DirBlock(dir) => Word(dir.nextDir) + NameField(dir.dirName, MAX_DIR_NAME) + Words(dir.inodes)
    case InodeBlock(inode) => Word(inode.size) + Word(inode.firstFrame) + NameField(inode.fileName, MAX_FILE_NAME)
    case FrameBlock(frame) => Word(frame.next) + Words(frame.content)
    case DataBlock(bytes) => bytes
  }

  /** The 512 bytes that a raw read of the block delivers. */
  function Raw(b: Block): (r: seq<Byte>)
    ensures |r| == BLOCK_SIZE
    ensures b.DataBlock? && |b.bytes| == BLOCK_SIZE ==> r == b.bytes
  {
    var bytes := Bytes(b);
    if |bytes| >= BLOCK_SIZE then bytes[..BLOCK_SIZE] else bytes + Zeros(BLOCK_SIZE - |bytes|)
  }

  function WordAt(bytes: seq<Byte>, i: nat): nat
    requires i + 4 <= |bytes|
  {
    (bytes[i] as int) + 256 * (bytes[i + 1] as int) + 65536 * (bytes[i + 2] as int) + 16777216 * (bytes[i + 3] as int)
  }

  function WordsAt(bytes: seq<Byte>, i: nat, n: nat): (r: seq<nat>)
    requires i + 4 * n <= |bytes|
    ensures |r| == n
    ensures forall k: nat {:trigger r[k]} :: k < n ==> r[k] == WordAt(bytes, i + 4 * k)
  {
    seq(n, k requires 0 <= k < n => WordAt(bytes, i + 4 * k))
  }

  /** How the code sees any block whose bytes it loads into a frame struct. */
  function AsFrame(b: Block): Frame {
    if b.FrameBlock? then b.frame
    else Frame(WordAt(Raw(b), 0), WordsAt(Raw(b), 4, FRAME_COUNT))
  }
}
