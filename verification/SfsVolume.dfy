/** The on-disk structure of a mounted SFS volume: which block belongs to what,
    the invariant every operation keeps, and the view a user has of it. */
module SfsVolume {
  import opened DiskBytes
  import opened SfsLayout

  /** Where the one pointer to a block is stored. */
  datatype Owner =
    | DirOwner
    | InodeOwner(dir: nat, slot: nat)
    | FrameOwner(inode: nat, index: nat)
    | ContentOwner(frame: nat, index: nat)

  /** The disk, the ids marked in the freemap, the directory chain, the frame
      chain of every inode, and the owner of every block in use. */
  datatype Vol = Vol(
    disk: seq<Block>, used: set<nat>, dirs: seq<nat>, chain: map<nat, seq<nat>>, own: map<nat, Owner>)

  function First(s: seq<nat>): nat {
    if s == [] then 0 else s[0]
  }

  /** The link stored in the k-th block of a chain. */
  function Next(s: seq<nat>, k: nat): nat {
    if k + 1 < |s| then s[k + 1] else 0
  }

  function NewDir(name: string): Dir {
    Dir(0, name, seq(DIR_SLOTS, _ => 0))
  }

  /** The directory struct stored in block d. */
  function DirIn(disk: seq<Block>, d: nat): Dir {
    if At(disk, d).DirBlock? then At(disk, d).dir else NewDir("")
  }

  ghost predicate IsDir(v: Vol, d: nat) {
    && d in v.own && v.own[d] == DirOwner
    && At(v.disk, d).DirBlock?
    && |At(v.disk, d).dir.inodes| == DIR_SLOTS
  }

  ghost predicate IsInode(v: Vol, x: nat) {
    && x in v.own && v.own[x].InodeOwner?
    && x in v.chain
    && At(v.disk, x).InodeBlock?
  }

  ghost predicate IsFrame(v: Vol, f: nat) {
    && f in v.own && v.own[f].FrameOwner?
    && At(v.disk, f).FrameBlock?
    && |At(v.disk, f).frame.content| == FRAME_COUNT
  }

  ghost predicate DirOk(v: Vol, d: nat) {
    && IsDir(v, d) && NameFits(At(v.disk, d).dir.dirName, MAX_DIR_NAME) && At(v.disk, d).dir.nextDir <= MAX_BLOCK_ID
    && var inodes := At(v.disk, d).dir.inodes;
      forall s: nat {:trigger inodes[s]} :: s < DIR_SLOTS && inodes[s] != 0 ==>
        inodes[s] in v.own && v.own[inodes[s]] == InodeOwner(d, s)
  }

  ghost predicate InodeOk(v: Vol, x: nat) {
    && IsInode(v, x) && NameFits(At(v.disk, x).inode.fileName, MAX_FILE_NAME)
    && var o := v.own[x];
    && IsDir(v, o.dir) && o.slot < DIR_SLOTS && At(v.disk, o.dir).dir.inodes[o.slot] == x
    && var c := v.chain[x];
    && At(v.disk, x).inode.size == FRAME_SIZE * |c|
    && At(v.disk, x).inode.firstFrame == First(c)
    && forall k: nat {:trigger c[k]} :: k < |c| ==> c[k] in v.own && v.own[c[k]] == FrameOwner(x, k)
  }

  ghost predicate FrameOk(v: Vol, f: nat) {
    && IsFrame(v, f)
    && var o := v.own[f];
    && IsInode(v, o.inode) && o.index < |v.chain[o.inode]| && v.chain[o.inode][o.index] == f
    && At(v.disk, f).frame.next == Next(v.chain[o.inode], o.index)
    && var content := At(v.disk, f).frame.content;
      forall c: nat {:trigger content[c]} :: c < FRAME_COUNT ==>
        content[c] in v.own && v.own[content[c]] == ContentOwner(f, c)
  }

  ghost predicate ContentOk(v: Vol, c: nat) {
    && c in v.own && v.own[c].ContentOwner?
    && var o := v.own[c];
    && IsFrame(v, o.frame) && o.index < FRAME_COUNT && At(v.disk, o.frame).frame.content[o.index] == c
  }

  /** A block in use is marked used, is neither the superblock nor the freemap,
      and is pointed to from exactly the place its owner says. */
  ghost predicate NodeOk(v: Vol, b: nat)
    requires b in v.own
  {
    && b in v.used && b > 2
    && match v.own[b] {
       case DirOwner => DirOk(v, b)
       case InodeOwner(_, _) => InodeOk(v, b)
       case FrameOwner(_, _) => FrameOk(v, b)
       case ContentOwner(_, _) => ContentOk(v, b)
    }
  }

  /** The i-th block of the directory chain is a directory linked to the next one. */
  ghost predicate DirLinkOk(v: Vol, i: nat)
    requires i < |v.dirs|
  {
    IsDir(v, v.dirs[i]) && At(v.disk, v.dirs[i]).dir.nextDir == Next(v.dirs, i)
  }

  ghost predicate Distinct(ds: seq<DirView>) {
    forall i: nat, j: nat :: i < j < |ds| ==> ds[i].id != ds[j].id && ds[i].name != ds[j].name
  }

  ghost predicate DirChainOk(v: Vol) {
    && (forall i: nat :: i < |v.dirs| ==> DirLinkOk(v, i))
    && Distinct(Dirs(v))
  }

  ghost predicate FileNamesOk(v: Vol) {
    forall x, y {:trigger SameDir(v, x, y)} ::
      x in v.chain && y in v.chain && x != y && SameDir(v, x, y) ==> FileName(v, x) != FileName(v, y)
  }

  ghost predicate SameDir(v: Vol, x: nat, y: nat) {
    && x in v.own && y in v.own && v.own[x].InodeOwner? && v.own[y].InodeOwner?
    && v.own[x].dir == v.own[y].dir
  }

  function DirName(v: Vol, d: nat): string {
    var b := At(v.disk, d);
    if b.DirBlock? then b.dir.dirName else ""
  }

  function FileName(v: Vol, x: nat): string {
    var b := At(v.disk, x);
    if b.InodeBlock? then b.inode.fileName else ""
  }

  /** The invariant of the volume.  The backing file is never shorter than mkfs
      makes it. */
  ghost predicate Inv(v: Vol) {
    && |v.disk| > SFS_NBLOCKS
    && At(v.disk, 0) == SuperBlock(Superblock(SFS_MAGIC, SFS_NBLOCKS, 1, First(v.dirs)))
    && (forall b {:trigger NodeOk(v, b)} :: b in v.own ==> NodeOk(v, b))
    && (forall x :: x in v.chain ==> x in v.own && v.own[x].InodeOwner?)
    && DirChainOk(v)
    && FileNamesOk(v)
    && UsedOk(v.used)
  }

  /** Block ids 1 and 2 are never handed out. */
  ghost predicate UsedOk(used: set<nat>) {
    1 in used && 2 in used && forall b :: b in used ==> 1 <= b <= MAX_BLOCK_ID
  }

  // ----- open files

  /** An entry of the file descriptor table. */
  datatype Fd = Fd(inode: Inode, inodeBid: nat, dirBid: nat, cur: nat, valid: bool)

  /** The descriptor's copy of the inode is the one on disk. */
  ghost predicate FdOk(v: Vol, fd: Fd) {
    && fd.inodeBid in v.chain && fd.inodeBid in v.own
    && DirOf(v, fd.inodeBid) == fd.dirBid
    && At(v.disk, fd.inodeBid) == InodeBlock(fd.inode)
  }

  /** Every open descriptor is up to date, and no file is open twice. */
  ghost predicate FdsOk(v: Vol, fds: seq<Fd>) {
    && |fds| == MAX_OPENED_FILES
    && (forall i: nat :: i < |fds| && fds[i].valid ==> FdOk(v, fds[i]))
    && (forall i: nat, j: nat :: i < j < |fds| && fds[i].valid && fds[j].valid ==> fds[i].inodeBid != fds[j].inodeBid)
  }

  ghost predicate IsOpen(fds: seq<Fd>, x: nat) {
    exists i: nat :: i < |fds| && fds[i].valid && fds[i].inodeBid == x
  }

  // ----- the user's view

  /** The n-th content block id in the flattened frame chain. */
  function IdAt(disk: seq<Block>, frames: seq<nat>, n: nat): nat {
    if n / FRAME_COUNT < |frames| && |AsFrame(At(disk, frames[n / FRAME_COUNT])).content| == FRAME_COUNT then
      AsFrame(At(disk, frames[n / FRAME_COUNT])).content[n % FRAME_COUNT]
    else 0
  }

  function BlockBytes(disk: seq<Block>, b: nat): (r: seq<Byte>)
    ensures |r| == BLOCK_SIZE
  {
    Raw(At(disk, b))
  }

  /** Byte p of the file whose frame chain is given. */
  function ByteAt(disk: seq<Block>, frames: seq<nat>, p: nat): Byte {
    BlockBytes(disk, IdAt(disk, frames, p / BLOCK_SIZE))[p % BLOCK_SIZE]
  }

  /** The bytes of the file, in order. */
  function Data(disk: seq<Block>, frames: seq<nat>): (r: seq<Byte>)
    ensures |r| == FRAME_SIZE * |frames|
  {
    seq(FRAME_SIZE * |frames|, p requires 0 <= p < FRAME_SIZE * |frames| => ByteAt(disk, frames, p))
  }

  datatype FileView = FileView(dir: nat, name: string, data: seq<Byte>)
  datatype DirView = DirView(id: nat, name: string)

  /** The listed directories, in chain order. */
  function Dirs(v: Vol): (r: seq<DirView>)
    ensures |r| == |v.dirs|
  {
    seq(|v.dirs|, i requires 0 <= i < |v.dirs| => DirView(v.dirs[i], DirName(v, v.dirs[i])))
  }

  function DirOf(v: Vol, x: nat): nat {
    if x in v.own && v.own[x].InodeOwner? then v.own[x].dir else 0
  }

  function ViewOf(v: Vol, x: nat): FileView
    requires x in v.chain
  {
    FileView(DirOf(v, x), FileName(v, x), Data(v.disk, v.chain[x]))
  }

  /** Every file by its inode number. */
  ghost function Files(v: Vol): (m: map<nat, FileView>)
    ensures m.Keys == v.chain.Keys
  {
    map x | x in v.chain :: ViewOf(v, x)
  }

  /** The positions of file x whose block the backing file really holds; beyond
      the end of the backing file a read delivers nothing. */
  ghost function StoredBytes(v: Vol, x: nat): set<nat>
    requires x in v.chain
  {
    set p: nat | p < FRAME_SIZE * |v.chain[x]| && IdAt(v.disk, v.chain[x], p / BLOCK_SIZE) < |v.disk|
  }

  ghost predicate AllStoredKept(v: Vol, v': Vol) {
    forall y :: y in v.chain && y in v'.chain ==> StoredBytes(v, y) <= StoredBytes(v', y)
  }

  /** Outside of file x, every byte that the backing file held it still holds. */
  ghost predicate StoredKept(v: Vol, v': Vol, x: nat) {
    forall y :: y in v.chain && y in v'.chain && y != x ==> StoredBytes(v, y) <= StoredBytes(v', y)
  }
}
