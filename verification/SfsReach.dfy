/** What the invariant means on the raw disk: walking the pointers from the
    superblock reaches every block on one path only, and every walk ends. */
module SfsReach {
  import opened DiskBytes
  import opened SfsLayout
  import opened SfsVolume
  import opened SfsVolumeLemmas
  import opened SfsFileLemmas
  import opened SfsSteps
  import opened SfsTransfer
  import opened SfsBitmap
  import opened SfsFileSystem

  /** The pointers to follow from the superblock: the i-th directory, slot s of it,
      the k-th frame of that file, and entry c of that frame. */
  datatype Path =
    | ToDir(i: nat)
    | ToInode(i: nat, s: nat)
    | ToFrame(i: nat, s: nat, k: nat)
    | ToContent(i: nat, s: nat, k: nat, c: nat)

  /** The i-th directory block, following next_dir links; 0 when the list ends. */
  function WalkDirs(disk: seq<Block>, i: nat): nat {
    if i == 0 then if At(disk, 0).SuperBlock? then At(disk, 0).sb.firstDir else 0
    else
      var d := WalkDirs(disk, i - 1);
      if d != 0 && At(disk, d).DirBlock? then At(disk, d).dir.nextDir else 0
  }

  function SlotOf(disk: seq<Block>, d: nat, s: nat): nat {
    if d != 0 && At(disk, d).DirBlock? && s < |At(disk, d).dir.inodes| then At(disk, d).dir.inodes[s] else 0
  }

  /** The k-th frame block of inode x, following next links; 0 when the chain ends. */
  function WalkFrames(disk: seq<Block>, x: nat, k: nat): nat {
    if k == 0 then if x != 0 && At(disk, x).InodeBlock? then At(disk, x).inode.firstFrame else 0
    else
      var f := WalkFrames(disk, x, k - 1);
      if f != 0 && At(disk, f).FrameBlock? then At(disk, f).frame.next else 0
  }

  function EntryOf(disk: seq<Block>, f: nat, c: nat): nat {
    if f != 0 && At(disk, f).FrameBlock? && c < |At(disk, f).frame.content| then At(disk, f).frame.content[c] else 0
  }

  /** The block at the end of a path; 0 if the path leaves the structure. */
  function Follow(disk: seq<Block>, p: Path): nat {
    match p
    case ToDir(i) => WalkDirs(disk, i)
    case ToInode(i, s) => SlotOf(disk, WalkDirs(disk, i), s)
    case ToFrame(i, s, k) => WalkFrames(disk, SlotOf(disk, WalkDirs(disk, i), s), k)
    case ToContent(i, s, k, c) =>
      EntryOf(disk, WalkFrames(disk, SlotOf(disk, WalkDirs(disk, i), s), k), c)
  }

  /** Walking the directory list visits exactly the directories, then ends. */
  lemma {:induction false} WalkDirsVisits(v: Vol, i: nat)
    requires Inv(v)
    ensures WalkDirs(v.disk, i) == (if i < |v.dirs| then v.dirs[i] else 0)
  {
    if i > 0 {
      WalkDirsVisits(v, i - 1);
      if i - 1 < |v.dirs| {
        assert DirLinkOk(v, i - 1);
        DirIdsNonzero(v, i - 1);
      }
    }
  }

  /** Walking the frames of a file visits exactly its chain, then ends. */
  lemma {:induction false} WalkFramesVisits(v: Vol, x: nat, k: nat)
    requires Inv(v) && x in v.chain
    ensures WalkFrames(v.disk, x, k) == (if k < |v.chain[x]| then v.chain[x][k] else 0)
  {
    if k == 0 {
      assert NodeOk(v, x);
    } else {
      WalkFramesVisits(v, x, k - 1);
      if k - 1 < |v.chain[x]| {
        FrameLink(v, x, k - 1);
      }
    }
  }

  /** Where a slot pointer leads. */
  lemma InodeReached(v: Vol, i: nat, s: nat)
    requires Inv(v) && Follow(v.disk, ToInode(i, s)) != 0
    ensures var x := Follow(v.disk, ToInode(i, s));
      i < |v.dirs| && x in v.chain && x in v.own && v.own[x] == InodeOwner(v.dirs[i], s) && x > 2
  {
    WalkDirsVisits(v, i);
    assert DirLinkOk(v, i);
    assert NodeOk(v, v.dirs[i]);
    var inodes := At(v.disk, v.dirs[i]).dir.inodes;
    assert inodes[s] in v.own;
    assert NodeOk(v, inodes[s]);
  }

  lemma FrameReached(v: Vol, i: nat, s: nat, k: nat)
    requires Inv(v) && Follow(v.disk, ToFrame(i, s, k)) != 0
    ensures var x, f := Follow(v.disk, ToInode(i, s)), Follow(v.disk, ToFrame(i, s, k));
      x != 0 && f in v.own && v.own[f] == FrameOwner(x, k) && f > 2
  {
    var x := Follow(v.disk, ToInode(i, s));
    NoInodeNoFrame(v.disk, x, k);
    InodeReached(v, i, s);
    WalkFramesVisits(v, x, k);
    assert NodeOk(v, x);
    assert v.chain[x][k] in v.own;
    assert NodeOk(v, v.chain[x][k]);
  }

  lemma {:induction false} NoInodeNoFrame(disk: seq<Block>, x: nat, k: nat)
    ensures x == 0 ==> WalkFrames(disk, x, k) == 0
  {
    if k > 0 {
      NoInodeNoFrame(disk, x, k - 1);
    }
  }

  lemma ContentReached(v: Vol, i: nat, s: nat, k: nat, c: nat)
    requires Inv(v) && Follow(v.disk, ToContent(i, s, k, c)) != 0
    ensures var f, b := Follow(v.disk, ToFrame(i, s, k)), Follow(v.disk, ToContent(i, s, k, c));
      f != 0 && b in v.own && v.own[b] == ContentOwner(f, c) && b > 2
  {
    FrameReached(v, i, s, k);
    var f := Follow(v.disk, ToFrame(i, s, k));
    assert NodeOk(v, f);
    var content := At(v.disk, f).frame.content;
    assert content[c] in v.own;
    assert NodeOk(v, content[c]);
  }

  /** Every reachable block is marked used in the freemap, and is neither block 0,
      1 nor 2. */
  lemma ReachedIsUsed(v: Vol, p: Path)
    requires Inv(v) && Follow(v.disk, p) != 0
    ensures Follow(v.disk, p) in v.used && Follow(v.disk, p) > 2
  {
    match p {
      case ToDir(i) => WalkDirsVisits(v, i); assert DirLinkOk(v, i);
      case ToInode(i, s) => InodeReached(v, i, s);
      case ToFrame(i, s, k) => FrameReached(v, i, s, k);
      case ToContent(i, s, k, c) => ContentReached(v, i, s, k, c);
    }
    assert NodeOk(v, Follow(v.disk, p));
  }

  lemma SameDirSameIndex(v: Vol, i: nat, j: nat)
    requires Inv(v) && i < |v.dirs| && j < |v.dirs| && v.dirs[i] == v.dirs[j]
    ensures i == j
  {
    assert Dirs(v)[i].id == Dirs(v)[j].id;
  }

  lemma SameInodeSamePath(v: Vol, i: nat, s: nat, j: nat, t: nat)
    requires Inv(v) && Follow(v.disk, ToInode(i, s)) == Follow(v.disk, ToInode(j, t)) != 0
    ensures i == j && s == t
  {
    InodeReached(v, i, s);
    InodeReached(v, j, t);
    SameDirSameIndex(v, i, j);
  }

  lemma SameFrameSamePath(v: Vol, i: nat, s: nat, k: nat, j: nat, t: nat, l: nat)
    requires Inv(v) && Follow(v.disk, ToFrame(i, s, k)) == Follow(v.disk, ToFrame(j, t, l)) != 0
    ensures i == j && s == t && k == l
  {
    FrameReached(v, i, s, k);
    FrameReached(v, j, t, l);
    SameInodeSamePath(v, i, s, j, t);
  }

  /** The kind of pointer a block is reached by is the kind of its owner. */
  lemma PathKind(v: Vol, p: Path)
    requires Inv(v) && Follow(v.disk, p) != 0
    ensures var b := Follow(v.disk, p);
      && b in v.own
      && (v.own[b].DirOwner? <==> p.ToDir?) && (v.own[b].InodeOwner? <==> p.ToInode?)
      && (v.own[b].FrameOwner? <==> p.ToFrame?) && (v.own[b].ContentOwner? <==> p.ToContent?)
  {
    match p {
      case ToDir(i) => WalkDirsVisits(v, i); assert DirLinkOk(v, i);
      case ToInode(i, s) => InodeReached(v, i, s);
      case ToFrame(i, s, k) => FrameReached(v, i, s, k);
      case ToContent(i, s, k, c) => ContentReached(v, i, s, k, c);
    }
  }

  /** Every block is reached on at most one path: no two files share a block, and
      no chain runs into itself or into another. */
  lemma PathsAreUnique(v: Vol, p: Path, q: Path)
    requires Inv(v) && Follow(v.disk, p) == Follow(v.disk, q) != 0
    ensures p == q
  {
    PathKind(v, p);
    PathKind(v, q);
    match p {
      case ToDir(i) =>
        WalkDirsVisits(v, i);
        WalkDirsVisits(v, q.i);
        SameDirSameIndex(v, i, q.i);
      case ToInode(i, s) => SameInodeSamePath(v, i, s, q.i, q.s);
      case ToFrame(i, s, k) => SameFrameSamePath(v, i, s, k, q.i, q.s, q.k);
      case ToContent(i, s, k, c) =>
        ContentReached(v, i, s, k, c);
        ContentReached(v, q.i, q.s, q.k, q.c);
        SameFrameSamePath(v, i, s, k, q.i, q.s, q.k);
    }
  }

  /** Every walk over a chain ends, after as many steps as the chain is long. */
  lemma WalksEnd(v: Vol, i: nat, s: nat)
    requires Inv(v)
    ensures WalkDirs(v.disk, |v.dirs|) == 0 && forall j: nat :: j < |v.dirs| ==> WalkDirs(v.disk, j) != 0
    ensures var x := Follow(v.disk, ToInode(i, s));
      x != 0 ==> (x in v.chain && WalkFrames(v.disk, x, |v.chain[x]|) == 0
        && forall k: nat :: k < |v.chain[x]| ==> WalkFrames(v.disk, x, k) != 0)
  {
    WalkDirsVisits(v, |v.dirs|);
    forall j: nat | j < |v.dirs| ensures WalkDirs(v.disk, j) != 0 {
      WalkDirsVisits(v, j);
      DirIdsNonzero(v, j);
    }
    var x := Follow(v.disk, ToInode(i, s));
    if x != 0 {
      InodeReached(v, i, s);
      WalkFramesVisits(v, x, |v.chain[x]|);
      forall k: nat | k < |v.chain[x]| ensures WalkFrames(v.disk, x, k) != 0 {
        WalkFramesVisits(v, x, k);
        FrameLink(v, x, k);
      }
    }
  }

  /** The two together, for every state of the file system that its operations can
      reach: the freemap in memory and in block 1 marks every block that pointers
      lead to, and no two paths on the disk lead to the same block. */
  lemma SoundInEveryState(fs: FileSystem, p: Path, q: Path)
    requires fs.Valid() && Follow(fs.disk, p) != 0
    ensures var b := Follow(fs.disk, p);
      && b > 2 && b in UsedOf(fs.freemap[..]) && At(fs.disk, 1) == FreemapBlock(fs.freemap[..])
      && (Follow(fs.disk, q) == b ==> q == p)
  {
    ReachedIsUsed(fs.V(), p);
    if Follow(fs.disk, q) == Follow(fs.disk, p) {
      PathsAreUnique(fs.V(), p, q);
    }
  }

  // ----- where the code does less than it should

  /** rmdir takes exactly the named directory off the list, and keeps the order of
      the others, if and only if it is not the first of several. */
  lemma RmdirKeepsTheRest(v: Vol, v': Vol, i: nat)
    requires Inv(v) && i < |v.dirs| && DirRemoved(v, v', i)
    ensures Dirs(v') == Dirs(v)[..i] + Dirs(v)[i + 1..] <==> i > 0 || |v.dirs| == 1
  {
    if i == 0 {
      assert |Dirs(v)[..0] + Dirs(v)[1..]| == |v.dirs| - 1;
    }
  }

  /** remove frees the inode and the frames of a file, but none of its content
      blocks: they stay marked used although nothing leads to them. */
  lemma RemoveLeaksContent(v: Vol, v': Vol, x: nat, n: nat)
    requires Inv(v) && x in v.chain && FileRemoved(v, v', x) && n < FRAME_COUNT * |v.chain[x]|
    ensures IdAt(v.disk, v.chain[x], n) in v'.used
  {
    ContentOwned(v, x, n);
    var id := IdAt(v.disk, v.chain[x], n);
    assert NodeOk(v, id) && NodeOk(v, x);
    if id in v.chain[x] {
      var k: nat :| k < |v.chain[x]| && v.chain[x][k] == id;
      FrameIsNotContent(v, x, k);
    }
  }

  /** remove frees all that belonged to the file if and only if the file was empty:
      a file with frames leaves at least 127 blocks marked used for good. */
  lemma RemoveFreesAll(v: Vol, v': Vol, x: nat)
    requires Inv(v) && x in v.chain && FileRemoved(v, v', x)
    ensures v'.used == v.used - BlocksOf(v, x) <==> v.chain[x] == []
    ensures At(v.disk, x).InodeBlock? && (v.chain[x] == [] <==> At(v.disk, x).inode.size == 0)
  {
    assert NodeOk(v, x);
    FileBlocks(v, x);
    if v.chain[x] == [] {
      forall b | b in v.own ensures FileOf(v, b) == x ==> b == x {
        EmptyFileHasInode(v, x, b);
      }
      assert BlocksOf(v, x) == {x};
    } else {
      RemoveLeaksContent(v, v', x, 0);
      assert IdAt(v.disk, v.chain[x], 0) in BlocksOf(v, x);
    }
  }

  lemma EmptyFileHasInode(v: Vol, x: nat, b: nat)
    requires Inv(v) && x in v.chain && v.chain[x] == [] && x != 0 && b in v.own
    ensures FileOf(v, b) == x ==> b == x
  {
    assert NodeOk(v, b);
    if v.own[b].ContentOwner? {
      assert v.own[b].frame in v.own && NodeOk(v, v.own[b].frame);
    }
  }

  /** Block b of a transfer of the bytes [cur, cur + length) is found at the right
      place of the id list, which is filled from index 0 with the ids from block
      cur / 512 on. */
  ghost predicate RightBlock(v: Vol, x: nat, cur: nat, length: nat, b: nat)
    requires x in v.chain
  {
    var start, end := cur / BLOCK_SIZE, (cur + length) / BLOCK_SIZE;
    b <= end - start && IdAt(v.disk, v.chain[x], start + b) == IdAt(v.disk, v.chain[x], b)
  }

  /** A transfer uses the right content blocks if and only if it starts in the
      first block of the file. */
  lemma TransferStartsInFirstBlock(v: Vol, x: nat, cur: nat, length: nat)
    requires Inv(v) && x in v.chain && length > 0 && cur + length < FRAME_SIZE * |v.chain[x]|
    ensures (forall b: nat :: cur / BLOCK_SIZE <= b <= (cur + length - 1) / BLOCK_SIZE ==> RightBlock(v, x, cur, length, b))
       <==> cur < BLOCK_SIZE
  {
    var start, end := cur / BLOCK_SIZE, (cur + length) / BLOCK_SIZE;
    if start > 0 && RightBlock(v, x, cur, length, start) {
      ContentDisjoint(v, x, x, start + start, start);
    }
  }
}
