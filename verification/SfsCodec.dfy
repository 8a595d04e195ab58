/** The structs of SFS survive the trip through the bytes of a block: each fills
    512 bytes, and loading the bytes gives the struct back. */
module SfsCodec {
  import opened DiskBytes
  import opened SfsLayout

  const WORD_LIMIT: nat := 0x1_0000_0000

  predicate IsWord(x: nat) {
    x < WORD_LIMIT
  }

  ghost predicate AreWords(xs: seq<nat>) {
    forall i: nat :: i < |xs| ==> IsWord(xs[i])
  }

  /** The struct can be stored: its numbers are 32-bit words, its names fit. */
  ghost predicate Storable(b: Block) {
    match b
    case SuperBlock(sb) => IsWord(sb.magic) && IsWord(sb.nblocks) && IsWord(sb.nfreemapBlocks) && IsWord(sb.firstDir)
    case FreemapBlock(words) => |words| == FREEMAP_WORDS
    case DirBlock(dir) => IsWord(dir.nextDir) && NameFits(dir.dirName, MAX_DIR_NAME) && |dir.inodes| == DIR_SLOTS && AreWords(dir.inodes)
    case InodeBlock(inode) => IsWord(inode.size) && IsWord(inode.firstFrame) && NameFits(inode.fileName, MAX_FILE_NAME)
    case FrameBlock(frame) => IsWord(frame.next) && |frame.content| == FRAME_COUNT && AreWords(frame.content)
    case DataBlock(bytes) => |bytes| == BLOCK_SIZE
  }

  /** The C string in the field of n bytes at position i. */
  function NameAt(bytes: seq<Byte>, i: nat, n: nat): string
    requires i + n <= |bytes|
    decreases n
  {
    if n == 0 || bytes[i] == 0 then "" else [bytes[i] as char] + NameAt(bytes, i + 1, n - 1)
  }

  function LoadSuper(bytes: seq<Byte>): Superblock
    requires |bytes| == BLOCK_SIZE
  {
    Superblock(WordAt(bytes, 0), WordAt(bytes, 4), WordAt(bytes, 8), WordAt(bytes, 12))
  }

  function LoadDir(bytes: seq<Byte>): Dir
    requires |bytes| == BLOCK_SIZE
  {
    Dir(WordAt(bytes, 0), NameAt(bytes, 4, MAX_DIR_NAME), WordsAt(bytes, 4 + MAX_DIR_NAME, DIR_SLOTS))
  }

  function LoadInode(bytes: seq<Byte>): Inode
    requires |bytes| == BLOCK_SIZE
  {
    Inode(WordAt(bytes, 0), WordAt(bytes, 4), NameAt(bytes, 8, MAX_FILE_NAME))
  }

  function LoadFrame(bytes: seq<Byte>): Frame
    requires |bytes| == BLOCK_SIZE
  {
    Frame(WordAt(bytes, 0), WordsAt(bytes, 4, FRAME_COUNT))
  }

  /** The bytes of a word make up its value, the lowest first, and loading them gives
      it back. */
  lemma WordBack(x: nat)
    requires IsWord(x)
    ensures var bytes := Word(x); x == (bytes[0] as int) + 0x100 * (bytes[1] as int) + 0x1_0000 * (bytes[2] as int) + 0x100_0000 * (bytes[3] as int)
    ensures WordAt(Word(x), 0) == x
  {
    var q := x / 256;
    var r := q / 256;
    assert x / 65536 == r;
    assert x / 16777216 == r / 256;
    assert x == 256 * q + x % 256 && q == 256 * r + q % 256 && r == 256 * (r / 256) + r % 256;
    assert r / 256 < 256;
  }

  lemma WordInside(before: seq<Byte>, x: nat, after: seq<Byte>)
    requires IsWord(x)
    ensures WordAt(before + Word(x) + after, |before|) == x
  {
    WordBack(x);
    var all := before + Word(x) + after;
    assert forall k: nat :: k < 4 ==> all[|before| + k] == Word(x)[k];
  }

  lemma {:induction false} WordsBack(before: seq<Byte>, xs: seq<nat>, after: seq<Byte>, k: nat)
    requires AreWords(xs) && k < |xs|
    ensures WordAt(before + Words(xs) + after, |before| + 4 * k) == xs[k]
    decreases k
  {
    if k == 0 {
      assert before + Words(xs) + after == before + Word(xs[0]) + (Words(xs[1..]) + after);
      WordInside(before, xs[0], Words(xs[1..]) + after);
    } else {
      assert before + Words(xs) + after == (before + Word(xs[0])) + Words(xs[1..]) + after;
      WordsBack(before + Word(xs[0]), xs[1..], after, k - 1);
    }
  }

  lemma AllWordsBack(before: seq<Byte>, xs: seq<nat>, after: seq<Byte>)
    requires AreWords(xs)
    ensures WordsAt(before + Words(xs) + after, |before|, |xs|) == xs
  {
    hide WordAt, Words, WordsAt;
    var all := before + Words(xs) + after;
    var back := WordsAt(all, |before|, |xs|);
    forall k: nat | k < |xs| ensures back[k] == xs[k] {
      WordsBack(before, xs, after, k);
    }
  }

  lemma {:induction false} NameBack(bytes: seq<Byte>, i: nat, s: string, n: nat, k: nat)
    requires NameFits(s, n) && k <= |s| && i + n <= |bytes| && bytes[i..i + n] == NameField(s, n)
    ensures NameAt(bytes, i + k, n - k) == s[k..]
    decreases |s| - k
  {
    assert k < n ==> bytes[i + k] == NameField(s, n)[k];
    if k < |s| {
      NameBack(bytes, i, s, n, k + 1);
      assert s[k..] == [s[k]] + s[k + 1..];
    }
  }

  /** Every struct fills a block exactly. */
  lemma FillsBlock(b: Block)
    requires Storable(b)
    ensures |Bytes(b)| == BLOCK_SIZE && Raw(b) == Bytes(b)
  {
  }

  lemma DirBack(dir: Dir)
    requires Storable(DirBlock(dir))
    ensures LoadDir(Raw(DirBlock(dir))) == dir
  {
    var raw := Raw(DirBlock(dir));
    FillsBlock(DirBlock(dir));
    var next, name, slots := Word(dir.nextDir), NameField(dir.dirName, MAX_DIR_NAME), Words(dir.inodes);
    assert raw == [] + next + (name + slots);
    WordInside([], dir.nextDir, name + slots);
    assert raw[4..4 + MAX_DIR_NAME] == name;
    NameBack(raw, 4, dir.dirName, MAX_DIR_NAME, 0);
    assert raw == (next + name) + slots + [];
    AllWordsBack(next + name, dir.inodes, []);
  }

  lemma InodeBack(inode: Inode)
    requires Storable(InodeBlock(inode))
    ensures LoadInode(Raw(InodeBlock(inode))) == inode
  {
    var raw := Raw(InodeBlock(inode));
    FillsBlock(InodeBlock(inode));
    var size, first, name := Word(inode.size), Word(inode.firstFrame), NameField(inode.fileName, MAX_FILE_NAME);
    assert raw == [] + size + (first + name);
    WordInside([], inode.size, first + name);
    assert raw == size + first + name;
    WordInside(size, inode.firstFrame, name);
    assert raw[8..8 + MAX_FILE_NAME] == name;
    NameBack(raw, 8, inode.fileName, MAX_FILE_NAME, 0);
  }

  lemma FrameBack(frame: Frame)
    requires Storable(FrameBlock(frame))
    ensures LoadFrame(Raw(FrameBlock(frame))) == frame
  {
    var raw := Raw(FrameBlock(frame));
    FillsBlock(FrameBlock(frame));
    assert raw == [] + Word(frame.next) + Words(frame.content);
    WordInside([], frame.next, Words(frame.content));
    assert raw == Word(frame.next) + Words(frame.content) + [];
    AllWordsBack(Word(frame.next), frame.content, []);
  }

  lemma SuperBack(sb: Superblock)
    requires Storable(SuperBlock(sb))
    ensures LoadSuper(Raw(SuperBlock(sb))) == sb
  {
    var raw := Raw(SuperBlock(sb));
    FillsBlock(SuperBlock(sb));
    var xs := [sb.magic, sb.nblocks, sb.nfreemapBlocks, sb.firstDir];
    assert raw == [] + Words(xs) + Zeros(BLOCK_SIZE - 16);
    WordsBack([], xs, Zeros(BLOCK_SIZE - 16), 0);
    WordsBack([], xs, Zeros(BLOCK_SIZE - 16), 1);
    WordsBack([], xs, Zeros(BLOCK_SIZE - 16), 2);
    WordsBack([], xs, Zeros(BLOCK_SIZE - 16), 3);
  }

  /** Storing a struct and loading it gives it back, for every kind of block. */
  lemma RoundTrip(b: Block)
    requires Storable(b)
    ensures match b
      case SuperBlock(sb) => LoadSuper(Raw(b)) == sb
      case FreemapBlock(words) => WordsAt(Raw(b), 0, FREEMAP_WORDS) == WordValues(words)
      case DirBlock(dir) => LoadDir(Raw(b)) == dir
      case InodeBlock(inode) => LoadInode(Raw(b)) == inode
      case FrameBlock(frame) => LoadFrame(Raw(b)) == frame
      case DataBlock(bytes) => Raw(b) == bytes
  {
    match b {
      case SuperBlock(sb) => SuperBack(sb);
      case FreemapBlock(words) =>
        FillsBlock(b);
        assert Raw(b) == [] + Words(WordValues(words)) + [];
        AllWordsBack([], WordValues(words), []);
      case DirBlock(dir) => DirBack(dir);
      case InodeBlock(inode) => InodeBack(inode);
      case FrameBlock(frame) => FrameBack(frame);
      case DataBlock(bytes) =>
    }
  }
}
