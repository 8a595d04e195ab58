/** How each change the file system makes to a volume keeps the invariant, and
    what it does to the user's view. */
module SfsVolumeLemmas {
  import opened DiskBytes
  import opened SfsLayout
  import opened SfsVolume

  // ----- facts about any volume that satisfies the invariant

  lemma OwnedAreUsed(v: Vol)
    requires Inv(v)
    ensures forall b :: b in v.own ==> b in v.used && b > 2
  {
    forall b | b in v.own ensures b in v.used && b > 2 {
      assert NodeOk(v, b);
    }
  }

  lemma ContentOwned(v: Vol, x: nat, n: nat)
    requires Inv(v) && x in v.chain && n < FRAME_COUNT * |v.chain[x]|
    ensures var id := IdAt(v.disk, v.chain[x], n);
      id in v.own && v.own[id] == ContentOwner(v.chain[x][n / FRAME_COUNT], n % FRAME_COUNT)
  {
    assert NodeOk(v, x);
    var f := v.chain[x][n / FRAME_COUNT];
    assert NodeOk(v, f);
    var content := At(v.disk, f).frame.content;
    assert content[n % FRAME_COUNT] in v.own;
  }

  /** Content blocks at different positions, in one file or in two, are different. */
  lemma ContentDisjoint(v: Vol, x: nat, y: nat, n: nat, m: nat)
    requires Inv(v) && x in v.chain && y in v.chain
    requires n < FRAME_COUNT * |v.chain[x]| && m < FRAME_COUNT * |v.chain[y]|
    requires IdAt(v.disk, v.chain[x], n) == IdAt(v.disk, v.chain[y], m)
    ensures x == y && n == m
  {
    ContentOwned(v, x, n);
    ContentOwned(v, y, m);
    var f := v.chain[x][n / FRAME_COUNT];
    assert NodeOk(v, x) && NodeOk(v, y);
    assert v.own[f] == FrameOwner(x, n / FRAME_COUNT);
    assert v.own[f] == FrameOwner(y, m / FRAME_COUNT);
  }

  lemma DataSame(d: seq<Block>, d': seq<Block>, frames: seq<nat>)
    requires forall k: nat {:trigger frames[k]} :: k < |frames| ==> At(d', frames[k]) == At(d, frames[k])
    requires forall n: nat {:trigger IdAt(d, frames, n)} :: n < FRAME_COUNT * |frames| ==>
      BlockBytes(d', IdAt(d, frames, n)) == BlockBytes(d, IdAt(d, frames, n))
    ensures Data(d', frames) == Data(d, frames)
  {
    forall p: nat | p < FRAME_SIZE * |frames| ensures ByteAt(d', frames, p) == ByteAt(d, frames, p) {
      assert frames[p / BLOCK_SIZE / FRAME_COUNT] == frames[p / BLOCK_SIZE / FRAME_COUNT];
      assert IdAt(d', frames, p / BLOCK_SIZE) == IdAt(d, frames, p / BLOCK_SIZE);
    }
  }

  // ----- what a change leaves alone

  /** Outside of `touched`, blocks and chains are the same; outside of `gone`, so are the owners. */
  ghost predicate Kept(v: Vol, v': Vol, touched: set<nat>, gone: set<nat>) {
    && Agree(v.disk, v'.disk, touched)
    && (forall b :: b in v.own && b !in gone ==> b in v'.own && v'.own[b] == v.own[b])
    && (forall x :: x in v.chain && x !in touched && x !in gone ==> x in v'.chain && v'.chain[x] == v.chain[x])
  }

  /** The block that holds the pointer to a block with this owner. */
  function Parent(o: Owner): nat {
    match o
    case DirOwner => 0
    case InodeOwner(d, _) => d
    case FrameOwner(x, _) => x
    case ContentOwner(f, _) => f
  }

  /** The pointer to b is still there. */
  ghost predicate ParentKept(v: Vol, v': Vol, b: nat)
    requires b in v.own
  {
    match v.own[b]
    case DirOwner => true
    case InodeOwner(d, s) => IsDir(v', d) && s < DIR_SLOTS && At(v'.disk, d).dir.inodes[s] == b
    case FrameOwner(x, k) =>
      && IsInode(v', x) && k < |v'.chain[x]| && v'.chain[x][k] == b
      && x in v.chain && Next(v'.chain[x], k) == Next(v.chain[x], k)
    case ContentOwner(f, c) => IsFrame(v', f) && c < FRAME_COUNT && At(v'.disk, f).frame.content[c] == b
  }

  /** None of the blocks that b points to is gone. */
  ghost predicate ChildrenStay(v: Vol, b: nat, gone: set<nat>)
    requires b in v.own
  {
    match v.own[b]
    case DirOwner => IsDir(v, b) && forall s: nat :: s < DIR_SLOTS ==>
      At(v.disk, b).dir.inodes[s] == 0 || At(v.disk, b).dir.inodes[s] !in gone
    case InodeOwner(_, _) => b in v.chain && forall k: nat :: k < |v.chain[b]| ==> v.chain[b][k] !in gone
    case FrameOwner(_, _) => IsFrame(v, b) && forall c: nat :: c < FRAME_COUNT ==>
      At(v.disk, b).frame.content[c] !in gone
    case ContentOwner(_, _) => true
  }

  lemma DirKept(v: Vol, v': Vol, touched: set<nat>, gone: set<nat>, d: nat)
    requires Kept(v, v', touched, gone) && DirOk(v, d)
    requires d !in touched && d !in gone && ChildrenStay(v, d, gone)
    ensures DirOk(v', d)
  {
  }

  lemma InodeKept(v: Vol, v': Vol, touched: set<nat>, gone: set<nat>, x: nat)
    requires Kept(v, v', touched, gone) && InodeOk(v, x)
    requires x !in touched && x !in gone && ChildrenStay(v, x, gone) && ParentKept(v, v', x)
    ensures InodeOk(v', x)
  {
  }

  lemma FrameKept(v: Vol, v': Vol, touched: set<nat>, gone: set<nat>, f: nat)
    requires Kept(v, v', touched, gone) && FrameOk(v, f)
    requires f !in touched && f !in gone && ChildrenStay(v, f, gone) && ParentKept(v, v', f)
    ensures FrameOk(v', f)
  {
  }

  lemma ContentKept(v: Vol, v': Vol, touched: set<nat>, gone: set<nat>, c: nat)
    requires Kept(v, v', touched, gone) && ContentOk(v, c)
    requires c !in gone && ParentKept(v, v', c)
    ensures ContentOk(v', c)
  {
  }

  /** A block that the change neither touches nor disconnects stays well linked. */
  lemma NodeKept(v: Vol, v': Vol, touched: set<nat>, gone: set<nat>, b: nat)
    requires Kept(v, v', touched, gone) && b in v.own && NodeOk(v, b)
    requires b !in gone && b in v'.used && (b in touched ==> v.own[b].ContentOwner?)
    requires ParentKept(v, v', b) && ChildrenStay(v, b, gone)
    ensures b in v'.own && NodeOk(v', b)
  {
    match v.own[b] {
      case DirOwner => DirKept(v, v', touched, gone, b);
      case InodeOwner(_, _) => InodeKept(v, v', touched, gone, b);
      case FrameOwner(_, _) => FrameKept(v, v', touched, gone, b);
      case ContentOwner(_, _) => ContentKept(v, v', touched, gone, b);
    }
  }

  lemma ParentUntouched(v: Vol, v': Vol, touched: set<nat>, gone: set<nat>, b: nat)
    requires Kept(v, v', touched, gone) && b in v.own && NodeOk(v, b)
    requires v.own[b] != DirOwner ==> Parent(v.own[b]) !in touched && Parent(v.own[b]) !in gone
    ensures ParentKept(v, v', b)
  {
  }

  lemma NothingGone(v: Vol, b: nat)
    requires b in v.own && NodeOk(v, b)
    ensures ChildrenStay(v, b, {})
  {
  }

  lemma DirLinkKept(v: Vol, v': Vol, touched: set<nat>, gone: set<nat>, i: nat, j: nat)
    requires Kept(v, v', touched, gone) && i < |v.dirs| && DirLinkOk(v, i)
    requires j < |v'.dirs| && v'.dirs[j] == v.dirs[i] && Next(v'.dirs, j) == Next(v.dirs, i)
    requires v.dirs[i] !in touched && v.dirs[i] !in gone
    ensures DirLinkOk(v', j) && DirName(v', v'.dirs[j]) == DirName(v, v.dirs[i])
  {
  }

  lemma DirChainKept(v: Vol, v': Vol, touched: set<nat>, gone: set<nat>)
    requires Kept(v, v', touched, gone) && DirChainOk(v) && v'.dirs == v.dirs
    requires forall i: nat :: i < |v.dirs| ==> v.dirs[i] !in touched && v.dirs[i] !in gone
    ensures DirChainOk(v') && Dirs(v') == Dirs(v)
  {
    forall i: nat | i < |v.dirs| ensures DirLinkOk(v', i) && Dirs(v')[i] == Dirs(v)[i] {
      assert DirLinkOk(v, i);
      DirLinkKept(v, v', touched, gone, i, i);
    }
  }

  /** Blocks that are not directories are not in the directory chain. */
  lemma DirsAside(v: Vol, s: set<nat>)
    requires DirChainOk(v) && forall b :: b in s && b in v.own ==> v.own[b] != DirOwner
    ensures forall i: nat :: i < |v.dirs| ==> v.dirs[i] !in s
  {
    forall i: nat | i < |v.dirs| ensures v.dirs[i] !in s {
      assert DirLinkOk(v, i);
    }
  }

  lemma FileNamesSame(v: Vol, v': Vol)
    requires FileNamesOk(v)
    requires forall x :: x in v'.chain ==>
      && x in v.chain && FileName(v', x) == FileName(v, x)
      && x in v.own && x in v'.own && v'.own[x] == v.own[x]
    ensures FileNamesOk(v')
  {
    forall x, y | x in v'.chain && y in v'.chain && x != y && SameDir(v', x, y)
      ensures FileName(v', x) != FileName(v', y)
    {
      assert SameDir(v, x, y);
    }
  }

  lemma FileNamesKept(v: Vol, v': Vol, touched: set<nat>)
    requires FileNamesOk(v) && Agree(v.disk, v'.disk, touched)
    requires forall x :: x in v'.chain ==> x in v.chain && x !in touched
    requires forall x :: x in v'.chain && x in v'.own && v'.own[x].InodeOwner? ==> x in v.own && v.own[x] == v'.own[x]
    ensures FileNamesOk(v')
  {
    forall x, y | x in v'.chain && y in v'.chain && x != y && SameDir(v', x, y)
      ensures FileName(v', x) != FileName(v', y)
    {
      assert SameDir(v, x, y);
    }
  }

  // ----- changes outside of the structure

  /** Nothing but content and unowned blocks changed, and every block in use is
      still marked used: the invariant stays. */
  lemma ContentChanged(v: Vol, d: seq<Block>, u: set<nat>, s: set<nat>)
    requires Inv(v) && Agree(v.disk, d, s)
    requires 0 !in s && forall b :: b in s && b in v.own ==> v.own[b].ContentOwner?
    requires forall b :: b in v.own ==> b in u
    requires UsedOk(u)
    ensures Inv(v.(disk := d, used := u))
    ensures Dirs(v.(disk := d, used := u)) == Dirs(v)
  {
    var v' := v.(disk := d, used := u);
    forall b | b in v'.own ensures NodeOk(v', b) {
      assert NodeOk(v, b);
      ParentUntouched(v, v', s, {}, b);
      NothingGone(v, b);
      NodeKept(v, v', s, {}, b);
    }
    DirsAside(v, s);
    DirChainKept(v, v', s, {});
    FileNamesKept(v, v', s);
  }

  /** The file that a block belongs to; 0 for directories. */
  ghost function FileOf(v: Vol, b: nat): nat
    requires b in v.own
  {
    match v.own[b]
    case DirOwner => 0
    case InodeOwner(_, _) => b
    case FrameOwner(x, _) => x
    case ContentOwner(f, _) => if f in v.own && v.own[f].FrameOwner? then v.own[f].inode else 0
  }

  lemma FileBlocks(v: Vol, x: nat)
    requires Inv(v) && x in v.chain
    ensures x in v.own && FileOf(v, x) == x && x > 2
    ensures forall k: nat {:trigger v.chain[x][k]} :: k < |v.chain[x]| ==>
      v.chain[x][k] in v.own && FileOf(v, v.chain[x][k]) == x
    ensures forall n: nat {:trigger IdAt(v.disk, v.chain[x], n)} :: n < FRAME_COUNT * |v.chain[x]| ==>
      IdAt(v.disk, v.chain[x], n) in v.own && FileOf(v, IdAt(v.disk, v.chain[x], n)) == x
  {
    assert NodeOk(v, x);
    forall n: nat | n < FRAME_COUNT * |v.chain[x]|
      ensures IdAt(v.disk, v.chain[x], n) in v.own && FileOf(v, IdAt(v.disk, v.chain[x], n)) == x
    {
      ContentOwned(v, x, n);
      assert v.chain[x][n / FRAME_COUNT] in v.own;
    }
  }

  /** The view of a file none of whose blocks changed. */
  lemma FileUntouched(v: Vol, v': Vol, s: set<nat>, x: nat)
    requires Inv(v) && Agree(v.disk, v'.disk, s)
    requires x in v.chain && x in v'.chain && v'.chain[x] == v.chain[x] && DirOf(v', x) == DirOf(v, x)
    requires forall b :: b in s && b in v.own ==> FileOf(v, b) != x
    ensures ViewOf(v', x) == ViewOf(v, x)
  {
    FileBlocks(v, x);
    DataSame(v.disk, v'.disk, v.chain[x]);
  }

  /** The frames of file y did not change: what was stored of it still is. */
  lemma StoredStays(v: Vol, v': Vol, s: set<nat>, y: nat)
    requires Inv(v) && Agree(v.disk, v'.disk, s)
    requires y in v.chain && y in v'.chain && v'.chain[y] == v.chain[y]
    requires forall b :: b in s && b in v.own && v.own[b].FrameOwner? ==> FileOf(v, b) != y
    ensures StoredBytes(v, y) <= StoredBytes(v', y)
  {
    assert NodeOk(v, y);
    forall p: nat | p in StoredBytes(v, y) ensures p in StoredBytes(v', y) {
      var f := v.chain[y][p / BLOCK_SIZE / FRAME_COUNT];
      assert f in v.own;
      assert At(v'.disk, f) == At(v.disk, f);
    }
  }

  /** No frame changed: what was stored of the files still is. */
  lemma NoFrameTouched(v: Vol, v': Vol, s: set<nat>)
    requires Inv(v) && Agree(v.disk, v'.disk, s)
    requires forall y :: y in v.chain && y in v'.chain ==> v'.chain[y] == v.chain[y]
    requires forall b :: b in s && b in v.own ==> !v.own[b].FrameOwner?
    ensures AllStoredKept(v, v')
  {
    forall y | y in v.chain && y in v'.chain ensures StoredBytes(v, y) <= StoredBytes(v', y) {
      StoredStays(v, v', s, y);
    }
  }

  lemma AllStoredStays(v: Vol, v': Vol, s: set<nat>, x: nat)
    requires Inv(v) && Agree(v.disk, v'.disk, s)
    requires forall y :: y in v.chain && y in v'.chain && y != x ==> v'.chain[y] == v.chain[y]
    requires forall b :: b in s && b in v.own && v.own[b].FrameOwner? ==> v.own[b].inode == x
    ensures StoredKept(v, v', x)
  {
    forall y | y in v.chain && y in v'.chain && y != x ensures StoredBytes(v, y) <= StoredBytes(v', y) {
      StoredStays(v, v', s, y);
    }
  }

  lemma StoredAfterAll(v0: Vol, v1: Vol, v2: Vol, x: nat)
    requires AllStoredKept(v0, v1) && StoredKept(v1, v2, x) && v0.chain.Keys <= v1.chain.Keys
    ensures StoredKept(v0, v2, x)
  {
  }

  lemma AllAfterStored(v0: Vol, v1: Vol, v2: Vol, x: nat)
    requires StoredKept(v0, v1, x) && AllStoredKept(v1, v2) && v0.chain.Keys <= v1.chain.Keys
    ensures StoredKept(v0, v2, x)
  {
  }

  lemma StoredTwice(v0: Vol, v1: Vol, v2: Vol, x: nat)
    requires StoredKept(v0, v1, x) && StoredKept(v1, v2, x) && v0.chain.Keys <= v1.chain.Keys
    ensures StoredKept(v0, v2, x)
  {
  }

  lemma AllTwice(v0: Vol, v1: Vol, v2: Vol)
    requires AllStoredKept(v0, v1) && AllStoredKept(v1, v2) && v0.chain.Keys <= v1.chain.Keys
    ensures AllStoredKept(v0, v2)
  {
  }

  lemma StoredAcross(v0: Vol, v1: Vol, v2: Vol, v3: Vol)
    requires AllStoredKept(v0, v1) && AllStoredKept(v1, v2) && AllStoredKept(v2, v3)
    requires v1.chain.Keys <= v0.chain.Keys && v1.chain == v2.chain == v3.chain
    ensures AllStoredKept(v0, v3)
  {
  }

  /** The view changes at one file only. */
  lemma FilesUpdated(v: Vol, v': Vol, x: nat, f: FileView)
    requires v'.chain.Keys == v.chain.Keys + {x} && ViewOf(v', x) == f
    requires forall y :: y in v.chain && y != x ==> ViewOf(v', y) == ViewOf(v, y)
    ensures Files(v') == Files(v)[x := f]
  {
  }

  /** Blocks that belong to nothing may change freely. */
  lemma UnownedChanged(v: Vol, d: seq<Block>, u: set<nat>, s: set<nat>)
    requires Inv(v) && Agree(v.disk, d, s)
    requires 0 !in s && forall b :: b in s ==> b !in v.own
    requires forall b :: b in v.own ==> b in u
    requires UsedOk(u)
    ensures Inv(v.(disk := d, used := u))
    ensures Dirs(v.(disk := d, used := u)) == Dirs(v)
    ensures Files(v.(disk := d, used := u)) == Files(v)
  {
    var v' := v.(disk := d, used := u);
    ContentChanged(v, d, u, s);
    forall x | x in v.chain ensures ViewOf(v', x) == ViewOf(v, x) {
      FileUntouched(v, v', s, x);
    }
  }

  /** Changing directory blocks and unowned blocks leaves every file as it was. */
  lemma DirBlocksChanged(v: Vol, v': Vol, s: set<nat>)
    requires Inv(v) && Agree(v.disk, v'.disk, s) && v'.chain == v.chain
    requires forall x :: x in v.chain ==> DirOf(v', x) == DirOf(v, x)
    requires forall b :: b in s && b in v.own ==> v.own[b] == DirOwner
    ensures Files(v') == Files(v)
  {
    forall x | x in v.chain ensures ViewOf(v', x) == ViewOf(v, x) {
      FileBlocks(v, x);
      FileUntouched(v, v', s, x);
    }
  }

  // ----- directories

  /** The disk after linking a new directory block n at the end of the chain. */
  function DirAddedDisk(v: Vol, n: nat, name: string): seq<Block> {
    if v.dirs == [] then
      Put(Put(v.disk, n, DirBlock(NewDir(name))), 0, SuperBlock(Superblock(SFS_MAGIC, SFS_NBLOCKS, 1, n)))
    else
      var last := v.dirs[|v.dirs| - 1];
      Put(Put(v.disk, last, DirBlock(DirIn(v.disk, last).(nextDir := n))), n, DirBlock(NewDir(name)))
  }

  function DirAdded(v: Vol, n: nat, name: string): Vol {
    v.(disk := DirAddedDisk(v, n, name), dirs := v.dirs + [n], own := v.own[n := DirOwner])
  }

  lemma DirAddedDiskAt(v: Vol, n: nat, name: string)
    requires Inv(v) && n !in v.own && n > 2
    ensures var d := DirAddedDisk(v, n, name);
      && At(d, n) == DirBlock(NewDir(name))
      && (v.dirs == [] ==> At(d, 0) == SuperBlock(Superblock(SFS_MAGIC, SFS_NBLOCKS, 1, n)) && Agree(v.disk, d, {0, n}))
      && (v.dirs != [] ==> var last := v.dirs[|v.dirs| - 1];
            At(d, last) == DirBlock(DirIn(v.disk, last).(nextDir := n)) && Agree(v.disk, d, {last, n}))
  {
    if v.dirs != [] {
      var last := v.dirs[|v.dirs| - 1];
      assert DirLinkOk(v, |v.dirs| - 1) && NodeOk(v, last);
      var d1 := Put(v.disk, last, DirBlock(DirIn(v.disk, last).(nextDir := n)));
      AgreeTransitive(v.disk, d1, DirAddedDisk(v, n, name), {last}, {n});
      assert {last} + {n} == {last, n};
      assert At(d1, last) == At(DirAddedDisk(v, n, name), last);
    } else {
      var d1 := Put(v.disk, n, DirBlock(NewDir(name)));
      AgreeTransitive(v.disk, d1, DirAddedDisk(v, n, name), {n}, {0});
      assert {n} + {0} == {0, n};
    }
  }

  lemma DirAddedNode(v: Vol, v': Vol, n: nat, last: nat, b: nat)
    requires Kept(v, v', {last, n}, {}) && n !in v.own && 0 !in v.own && n != 0 && b in v'.used
    requires b in v.own && NodeOk(v, b) && (last == 0 || DirOk(v, last))
    requires last != 0 ==> IsDir(v, last) && IsDir(v', last) && At(v'.disk, last).dir.nextDir <= MAX_BLOCK_ID
    requires last != 0 ==> At(v'.disk, last).dir == At(v.disk, last).dir.(nextDir := At(v'.disk, last).dir.nextDir)
    ensures b in v'.own && NodeOk(v', b)
  {
    if b != last {
      if v.own[b] == DirOwner || Parent(v.own[b]) != last {
        ParentUntouched(v, v', {last, n}, {}, b);
      }
      NothingGone(v, b);
      NodeKept(v, v', {last, n}, {}, b);
    }
  }

  lemma DirAddedChain(v: Vol, v': Vol, n: nat, last: nat, name: string)
    requires DirChainOk(v) && n !in v.own
    requires forall i: nat :: i < |v.dirs| ==> Dirs(v)[i].name != name
    requires v'.dirs == v.dirs + [n] && Kept(v, v', {last, n}, {})
    requires IsDir(v', n) && At(v'.disk, n).dir.nextDir == 0 && At(v'.disk, n).dir.dirName == name
    requires if v.dirs == [] then last == 0 else last == v.dirs[|v.dirs| - 1]
    requires v.dirs != [] ==> At(v'.disk, last) == DirBlock(DirIn(v.disk, last).(nextDir := n))
    ensures DirChainOk(v') && Dirs(v') == Dirs(v) + [DirView(n, name)]
  {
    forall i: nat | i < |v.dirs|
      ensures DirLinkOk(v', i) && Dirs(v')[i] == Dirs(v)[i] && Dirs(v)[i].id != n
    {
      assert DirLinkOk(v, i);
      if i < |v.dirs| - 1 {
        assert Dirs(v)[i].id != Dirs(v)[|v.dirs| - 1].id;
        DirLinkKept(v, v', {last, n}, {}, i, i);
      }
    }
    assert DirLinkOk(v', |v.dirs|);
    assert Dirs(v') == Dirs(v) + [DirView(n, name)];
  }

  lemma DirAddedKept(v: Vol, n: nat, name: string) returns (last: nat)
    requires Inv(v) && n !in v.own && n > 2
    ensures 0 !in v.own
    ensures last == if v.dirs == [] then 0 else v.dirs[|v.dirs| - 1]
    ensures v.dirs != [] ==> last in v.own && DirOk(v, last)
    ensures Kept(v, DirAdded(v, n, name), {last, n}, {})
  {
    last := if v.dirs == [] then 0 else v.dirs[|v.dirs| - 1];
    DirAddedDiskAt(v, n, name);
    OwnedAreUsed(v);
    if v.dirs != [] {
      assert DirLinkOk(v, |v.dirs| - 1) && NodeOk(v, last);
    }
  }

  lemma DirAddedNodes(v: Vol, n: nat, name: string)
    requires Inv(v) && n in v.used && n !in v.own && n > 2 && NameFits(name, MAX_DIR_NAME)
    ensures forall b :: b in DirAdded(v, n, name).own ==> NodeOk(DirAdded(v, n, name), b)
  {
    var v' := DirAdded(v, n, name);
    var last := DirAddedKept(v, n, name);
    DirAddedDiskAt(v, n, name);
    forall b | b in v'.own ensures NodeOk(v', b) {
      if b != n {
        assert NodeOk(v, b);
        DirAddedNode(v, v', n, last, b);
      }
    }
  }

  /** mkdir's change to the disk adds one empty directory at the end of the list. */
  lemma DirAddedOk(v: Vol, n: nat, name: string)
    requires Inv(v) && n in v.used && n !in v.own && n > 2 && NameFits(name, MAX_DIR_NAME)
    requires forall i: nat :: i < |v.dirs| ==> Dirs(v)[i].name != name
    ensures Inv(DirAdded(v, n, name))
    ensures Dirs(DirAdded(v, n, name)) == Dirs(v) + [DirView(n, name)]
    ensures Files(DirAdded(v, n, name)) == Files(v)
  {
    var v' := DirAdded(v, n, name);
    var last := DirAddedKept(v, n, name);
    DirAddedDiskAt(v, n, name);
    DirAddedNodes(v, n, name);
    DirAddedChain(v, v', n, last, name);
    FileNamesKept(v, v', {last, n});
    DirBlocksChanged(v, v', {last, n});
  }

  ghost predicate EmptyDir(v: Vol, d: nat) {
    IsDir(v, d) && forall s: nat :: s < DIR_SLOTS ==> At(v.disk, d).dir.inodes[s] == 0
  }

  /** rmdir of the first directory: the superblock's link is cleared, so the
      directories behind it leave the list as well. */
  function HeadRemoved(v: Vol): Vol
    requires v.dirs != []
  {
    v.(disk := Put(v.disk, 0, SuperBlock(Superblock(SFS_MAGIC, SFS_NBLOCKS, 1, 0))),
       used := v.used - {v.dirs[0]}, dirs := [], own := v.own - {v.dirs[0]})
  }

  /** rmdir of a later directory: its predecessor now links to its successor. */
  function LaterRemoved(v: Vol, i: nat): Vol
    requires 0 < i < |v.dirs|
  {
    v.(disk := Put(v.disk, v.dirs[i - 1], DirBlock(DirIn(v.disk, v.dirs[i - 1]).(nextDir := Next(v.dirs, i)))),
       used := v.used - {v.dirs[i]}, dirs := v.dirs[..i] + v.dirs[i + 1..], own := v.own - {v.dirs[i]})
  }

  lemma DirRemovedNode(v: Vol, v': Vol, d: nat, prev: nat, b: nat)
    requires Kept(v, v', {prev}, {d}) && EmptyDir(v, d) && b in v'.used && prev != d
    requires b in v.own && NodeOk(v, b) && b != d && b !in {0} && 0 !in v.own
    requires prev != 0 ==> DirOk(v, prev) && IsDir(v', prev) && At(v'.disk, prev).dir.nextDir <= MAX_BLOCK_ID
    requires prev != 0 ==> At(v'.disk, prev).dir == At(v.disk, prev).dir.(nextDir := At(v'.disk, prev).dir.nextDir)
    requires DirOk(v, d)
    ensures b in v'.own && NodeOk(v', b)
  {
    assert ChildrenStay(v, b, {d});
    if b != prev {
      if v.own[b] == DirOwner || Parent(v.own[b]) != prev {
        assert v.own[b] != DirOwner ==> Parent(v.own[b]) != d;
        ParentUntouched(v, v', {prev}, {d}, b);
      }
      NodeKept(v, v', {prev}, {d}, b);
    }
  }

  lemma HeadRemovedOk(v: Vol)
    requires Inv(v) && v.dirs != [] && EmptyDir(v, v.dirs[0])
    ensures Inv(HeadRemoved(v))
    ensures Dirs(HeadRemoved(v)) == []
    ensures Files(HeadRemoved(v)) == Files(v)
  {
    var v', d := HeadRemoved(v), v.dirs[0];
    OwnedAreUsed(v);
    assert NodeOk(v, d);
    assert Kept(v, v', {0}, {d});
    forall b | b in v'.own ensures NodeOk(v', b) {
      assert NodeOk(v, b);
      DirRemovedNode(v, v', d, 0, b);
    }
    forall x | x in v.chain ensures x != 0 && x != d {
      assert NodeOk(v, x);
    }
    FileNamesKept(v, v', {0});
    DirBlocksChanged(v, v', {0});
  }

  lemma LaterRemovedChain(v: Vol, v': Vol, i: nat)
    requires DirChainOk(v) && 0 < i < |v.dirs| && v'.dirs == v.dirs[..i] + v.dirs[i + 1..]
    requires Kept(v, v', {v.dirs[i - 1]}, {v.dirs[i]})
    requires At(v'.disk, v.dirs[i - 1]) == DirBlock(DirIn(v.disk, v.dirs[i - 1]).(nextDir := Next(v.dirs, i)))
    ensures DirChainOk(v')
    ensures Dirs(v') == Dirs(v)[..i] + Dirs(v)[i + 1..]
  {
    forall j: nat | j < |v'.dirs|
      ensures DirLinkOk(v', j) && Dirs(v')[j] == Dirs(v)[if j < i then j else j + 1]
    {
      var k := if j < i then j else j + 1;
      assert DirLinkOk(v, k) && v'.dirs[j] == v.dirs[k];
      assert Dirs(v)[k].id != Dirs(v)[i].id;
      if j != i - 1 {
        assert Dirs(v)[k].id != Dirs(v)[i - 1].id;
        DirLinkKept(v, v', {v.dirs[i - 1]}, {v.dirs[i]}, k, j);
      }
    }
  }

  lemma LaterRemovedKept(v: Vol, i: nat)
    requires Inv(v) && 0 < i < |v.dirs|
    ensures 0 !in v.own && v.dirs[i - 1] != v.dirs[i] && v.dirs[i] > 2 && Next(v.dirs, i) <= MAX_BLOCK_ID
    ensures v.dirs[i] in v.own && v.dirs[i - 1] in v.own && DirOk(v, v.dirs[i]) && DirOk(v, v.dirs[i - 1])
    ensures Kept(v, LaterRemoved(v, i), {v.dirs[i - 1]}, {v.dirs[i]})
  {
    OwnedAreUsed(v);
    assert DirLinkOk(v, i - 1) && DirLinkOk(v, i) && Dirs(v)[i - 1].id != Dirs(v)[i].id;
    assert NodeOk(v, v.dirs[i]) && NodeOk(v, v.dirs[i - 1]);
    if i + 1 < |v.dirs| {
      assert DirLinkOk(v, i + 1);
    }
  }

  lemma LaterRemovedNodes(v: Vol, i: nat)
    requires Inv(v) && 0 < i < |v.dirs| && EmptyDir(v, v.dirs[i])
    ensures forall b :: b in LaterRemoved(v, i).own ==> NodeOk(LaterRemoved(v, i), b)
  {
    var v' := LaterRemoved(v, i);
    LaterRemovedKept(v, i);
    forall b | b in v'.own ensures NodeOk(v', b) {
      assert NodeOk(v, b);
      DirRemovedNode(v, v', v.dirs[i], v.dirs[i - 1], b);
    }
  }

  lemma LaterRemovedOk(v: Vol, i: nat)
    requires Inv(v) && 0 < i < |v.dirs| && EmptyDir(v, v.dirs[i])
    ensures Inv(LaterRemoved(v, i))
    ensures Dirs(LaterRemoved(v, i)) == Dirs(v)[..i] + Dirs(v)[i + 1..]
    ensures Files(LaterRemoved(v, i)) == Files(v)
  {
    var v', prev := LaterRemoved(v, i), v.dirs[i - 1];
    LaterRemovedKept(v, i);
    LaterRemovedNodes(v, i);
    LaterRemovedChain(v, v', i);
    FileNamesKept(v, v', {prev});
    DirBlocksChanged(v, v', {prev});
  }
}
