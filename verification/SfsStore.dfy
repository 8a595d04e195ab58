/** The block store of a datanode on top of SFS: every block is a file of its own
    in the one directory "/".  It behaves as a map from paths to 1024 bytes. */
module SfsStore {
  import opened DiskBytes
  import opened SfsLayout
  import opened SfsVolume
  import opened SfsVolumeLemmas
  import opened SfsFileLemmas
  import opened SfsSteps
  import opened SfsGrow
  import opened SfsTransfer
  import opened SfsFileSystem
  import opened SfsBitmap
  import BlockPath

  /** Blocks that one stored block takes: its inode, one frame, 127 of content. */
  const COST: nat := 129
  /** The most paths for which the ids 3..4096 suffice, next to the directory. */
  const CAPACITY: nat := 31

  type Contents = map<string, seq<Byte>>

  /** File x holds the block, in one frame, and all of it really is on disk. */
  ghost predicate Holds(v: Vol, x: nat, bytes: seq<Byte>) {
    && x in v.chain && |v.chain[x]| == 1 && |bytes| == DFS_BLOCK_SIZE
    && Touched(v, x, 0, DFS_BLOCK_SIZE)
    && DataOf(v, x)[..DFS_BLOCK_SIZE] == bytes
  }

  /** File x is in the directory and holds the block stored under its name. */
  ghost predicate FileGood(v: Vol, m: Contents, x: nat) {
    && x in v.chain && v.dirs != [] && DirOf(v, x) == v.dirs[0]
    && FileName(v, x) in m && Holds(v, x, m[FileName(v, x)])
  }

  ghost predicate OnlyRoot(v: Vol) {
    |v.dirs| == 1 && Dirs(v)[0].name == "/"
  }

  /** The volume stores exactly the blocks in m. */
  ghost predicate Stores(v: Vol, m: Contents) {
    && (OnlyRoot(v) || (v.dirs == [] && m == map[]))
    && (forall x :: x in v.chain ==> FileGood(v, m, x))
    && (forall name :: name in m ==> v.dirs != [] && HasFile(v, v.dirs[0], name))
    && |v.chain| == |m| && |v.used| == 2 + |v.dirs| + COST * |m|
  }

  ghost predicate AllClosed(fds: seq<Fd>) {
    forall i: nat :: i < |fds| ==> !fds[i].valid
  }

  ghost predicate ClosedBut(fds: seq<Fd>, fd: nat) {
    fd < |fds| && forall i: nat :: i < |fds| && i != fd ==> !fds[i].valid
  }

  lemma OneChanged(fds: seq<Fd>, fds': seq<Fd>, fd: nat)
    requires ClosedBut(fds, fd) && |fds'| == |fds| && fds' == fds[fd := fds'[fd]]
    ensures ClosedBut(fds', fd)
  {
  }

  lemma EmptyStores(v: Vol)
    requires Files(v) == map[] && Dirs(v) == [] && v.used == {1, 2}
    ensures Stores(v, map[])
  {
    assert v.chain.Keys == {};
    assert |v.dirs| == |Dirs(v)|;
  }

  // ----- the directory

  lemma RootCreated(v: Vol, v': Vol, m: Contents)
    requires Stores(v, m) && !HasDir(v, "/") && DirCreated(v, v', "/")
    ensures Stores(v', m) && OnlyRoot(v')
  {
    if OnlyRoot(v) {
      assert DirNamed(v, 0, "/");
    }
    assert v.chain.Keys == Files(v).Keys == Files(v').Keys == v'.chain.Keys;
    assert v.chain.Keys == {} by {
      if x :| x in v.chain {
        assert FileGood(v, m, x);
      }
    }
    assert |v'.chain.Keys| == |v'.chain| == 0;
    assert |Dirs(v')| == |v'.dirs| == 1;
  }

  lemma RootKept(v: Vol, m: Contents)
    requires Stores(v, m) && HasDir(v, "/")
    ensures OnlyRoot(v)
  {
    var i: nat :| DirNamed(v, i, "/");
  }

  lemma RootNamed(v: Vol, i: nat)
    requires OnlyRoot(v)
    ensures DirNamed(v, i, "/") <==> i == 0
  {
  }

  // ----- one write

  ghost predicate OthersGood(v: Vol, m: Contents, name: string, x: nat) {
    forall y :: y in v.chain && y != x ==> FileGood(v, m, y) && FileName(v, y) != name
  }

  ghost predicate NamesFound(v: Vol, m: Contents, name: string) {
    v.dirs != [] && forall other :: other in m && other != name ==> HasFile(v, v.dirs[0], other)
  }

  /** The store while path name is being written: file x is the one for name; all
      other files are good, and x has the given number of frames. */
  ghost predicate StoresBut(v: Vol, m: Contents, name: string, x: nat, frames: nat) {
    && OnlyRoot(v) && FileAt(v, v.dirs[0], name, x) && |v.chain[x]| == frames
    && OthersGood(v, m, name, x) && NamesFound(v, m, name)
    && |v.chain| == |m[name := []]|
    && |v.used| == 3 + COST * (|m[name := []]| - 1) + 1 + 128 * frames
  }

  lemma UpdateCount<K, T>(m: map<K, T>, k: K, value: T)
    ensures |m[k := value]| == if k in m then |m| else |m| + 1
  {
    var m' := m[k := value];
    assert m'.Keys == m.Keys + {k};
    assert |m'.Keys| == |m'| && |m.Keys| == |m|;
  }

  lemma SameView(v: Vol, v': Vol, y: nat)
    requires y in v.chain && y in v'.chain && Files(v')[y] == Files(v)[y]
    ensures ViewOf(v', y) == ViewOf(v, y)
  {
  }

  /** A file that an operation on another file left alone. */
  lemma NameStays(v: Vol, v': Vol, d: nat, other: string, x: nat)
    requires HasFile(v, d, other) && !FileAt(v, d, other, x)
    requires forall y :: y in v.chain && y != x ==> y in v'.chain && Files(v')[y] == Files(v)[y]
    ensures HasFile(v', d, other)
  {
    var y :| FileAt(v, d, other, y);
    SameView(v, v', y);
    assert FileAt(v', d, other, y);
  }

  lemma GoodStays(v: Vol, v': Vol, m: Contents, x: nat, y: nat)
    requires y != x && FileGood(v, m, y) && y in v'.chain && v'.chain[y] == v.chain[y] && v'.dirs == v.dirs
    requires ViewOf(v', y) == ViewOf(v, y) && StoredKept(v, v', x)
    ensures FileGood(v', m, y) && FileName(v', y) == FileName(v, y)
  {
    assert DataOf(v', y) == ViewOf(v', y).data == ViewOf(v, y).data == DataOf(v, y);
  }

  lemma SameRoot(v: Vol, v': Vol)
    requires OnlyRoot(v) && v'.dirs == v.dirs && Dirs(v') == Dirs(v)
    ensures OnlyRoot(v')
  {
  }

  /** The files besides x are as they were. */
  ghost predicate OthersSame(v: Vol, v': Vol, x: nat) {
    && v'.dirs == v.dirs && v'.chain.Keys == v.chain.Keys + {x} && StoredKept(v, v', x)
    && forall y :: y in v.chain && y != x ==> v'.chain[y] == v.chain[y] && Files(v')[y] == Files(v)[y]
  }

  lemma CreatedAside(v: Vol, v': Vol, d: nat, name: string, x: nat)
    requires FileCreated(v, v', d, name, x) && x !in v.chain
    ensures OthersSame(v, v', x) && |v'.chain| == |v.chain| + 1 && |v'.used| == |v.used| + 1
    ensures FileAt(v', d, name, x) && v'.chain[x] == []
  {
    hide OthersSame, StoredKept, Data;
    CreatedOthers(v, v', d, name, x);
    UpdateCount(v.chain, x, []);
    assert ViewOf(v', x) == Files(v')[x];
  }

  lemma CreatedOthers(v: Vol, v': Vol, d: nat, name: string, x: nat)
    requires FileCreated(v, v', d, name, x) && x !in v.chain
    ensures OthersSame(v, v', x)
  {
    hide StoredKept, Lowest, Dirs;
  }

  lemma WrittenAside(v: Vol, v': Vol, x: nat, n: nat, buf: seq<Byte>)
    requires FileWritten(v, v', x, n, buf, 0)
    ensures OthersSame(v, v', x) && |v'.chain| == |v.chain| && |v'.chain[x]| == |v.chain[x]| + n && Dirs(v') == Dirs(v)
  {
    hide StoredKept, Rewritten, Touched, NewBlocksInOrder, WrittenEnd, Dirs, DataOf, StoredBytes;
    UpdateCount(v.chain, x, v'.chain[x]);
  }

  lemma OthersStay(v: Vol, v': Vol, m: Contents, name: string, x: nat)
    requires OthersSame(v, v', x) && OthersGood(v, m, name, x)
    ensures OthersGood(v', m, name, x)
  {
    forall y | y in v'.chain && y != x ensures FileGood(v', m, y) && FileName(v', y) != name {
      SameView(v, v', y);
      GoodStays(v, v', m, x, y);
    }
  }

  lemma NamesStay(v: Vol, v': Vol, m: Contents, name: string, x: nat)
    requires OthersSame(v, v', x) && (x in v.chain ==> FileName(v, x) == name) && NamesFound(v, m, name)
    ensures NamesFound(v', m, name)
  {
    forall other | other in m && other != name ensures HasFile(v', v'.dirs[0], other) {
      NameStays(v, v', v.dirs[0], other, x);
    }
  }

  lemma FoundOpened(v: Vol, m: Contents, name: string, x: nat)
    requires Inv(v) && Stores(v, m) && OnlyRoot(v) && FileAt(v, v.dirs[0], name, x)
    ensures name in m && StoresBut(v, m, name, x, 1)
  {
    assert FileGood(v, m, x);
    UpdateCount(m, name, []);
    forall y | y in v.chain && y != x ensures FileGood(v, m, y) && FileName(v, y) != name {
      assert FileGood(v, m, y);
      FileHasSlot(v, x);
      FileHasSlot(v, y);
      assert SameDir(v, x, y);
    }
  }

  lemma NoFileYet(v: Vol, m: Contents, name: string, x: nat)
    requires Inv(v) && Stores(v, m) && OnlyRoot(v) && !HasFile(v, v.dirs[0], name) && x !in v.used
    ensures x !in v.chain && name !in m
    ensures OthersGood(v, m, name, x) && NamesFound(v, m, name)
  {
    OwnedAreUsed(v);
    forall y | y in v.chain ensures FileGood(v, m, y) && FileName(v, y) != name {
      assert FileGood(v, m, y);
      assert !FileAt(v, v.dirs[0], name, y);
    }
  }

  lemma NewOpened(v: Vol, v': Vol, m: Contents, name: string, x: nat)
    requires Inv(v) && Stores(v, m) && OnlyRoot(v) && !HasFile(v, v.dirs[0], name)
    requires FileCreated(v, v', v.dirs[0], name, x)
    ensures name !in m && StoresBut(v', m, name, x, 0)
  {
    NoFileYet(v, m, name, x);
    CreatedAside(v, v', v.dirs[0], name, x);
    UpdateCount(m, name, []);
    RestStays(v, v', m, name, x, 0);
  }

  /** The preconditions of open hold in the store. */
  lemma MayOpenBlock(v: Vol, fds: seq<Fd>, m: Contents, name: string)
    requires Inv(v) && Stores(v, m) && OnlyRoot(v) && AllClosed(fds)
    requires name in m || (|m| < CAPACITY && NameFits(name, MAX_FILE_NAME))
    ensures MayOpen(v, fds, v.dirs[0], name)
    ensures forall i: nat :: DirNamed(v, i, "/") ==> MayOpen(v, fds, v.dirs[i], name)
  {
    if !HasFile(v, v.dirs[0], name) {
      assert DirLinkOk(v, 0);
      SubsetCount(FilesIn(v, v.dirs[0]), v.chain.Keys);
      assert |v.chain.Keys| == |v.chain|;
      FreeSlot(v, v.dirs[0]);
    }
  }

  lemma BlockOpened(v: Vol, v': Vol, m: Contents, name: string, x: nat)
    requires Inv(v) && Stores(v, m) && OnlyRoot(v) && Opened(v, v', v.dirs[0], name, x)
    ensures StoresBut(v', m, name, x, if name in m then 1 else 0)
    ensures name in m ==> v' == v
  {
    if HasFile(v, v.dirs[0], name) {
      FoundOpened(v, m, name, x);
    } else {
      NewOpened(v, v', m, name, x);
    }
  }

  lemma GoodFile(v: Vol, m: Contents, name: string, x: nat)
    requires Stores(v, m) && x in v.chain && FileName(v, x) == name
    ensures FileGood(v, m, x)
  {
  }

  lemma BlockDelivered(v: Vol, m: Contents, name: string, x: nat, buf: seq<Byte>, before: seq<Byte>)
    requires FileGood(v, m, x) && FileName(v, x) == name && Delivered(v, x, buf, before, 0, DFS_BLOCK_SIZE)
    ensures buf[..DFS_BLOCK_SIZE] == m[name] && buf[DFS_BLOCK_SIZE..] == before[DFS_BLOCK_SIZE..]
  {
    forall i: nat | i < DFS_BLOCK_SIZE ensures buf[i] == m[name][i] {
      assert 0 + i in StoredBytes(v, x);
      assert DataOf(v, x)[..DFS_BLOCK_SIZE][i] == m[name][i];
    }
  }

  lemma RoomForRoot(v: Vol, m: Contents)
    requires Stores(v, m) && !HasDir(v, "/")
    ensures Room(v, 1)
  {
    if OnlyRoot(v) {
      RootNamed(v, 0);
      assert false;
    }
    assert |m| == 0;
  }

  lemma RoomForBlock(v: Vol, m: Contents, name: string, x: nat, frames: nat)
    requires Inv(v) && StoresBut(v, m, name, x, frames) && (name in m || |m| < CAPACITY)
    requires frames == if name in m then 1 else 0
    ensures Missing(|v.chain[x]|, DFS_BLOCK_SIZE) == 1 - frames && Room(v, (FRAME_COUNT + 1) * (1 - frames))
  {
    UpdateCount(m, name, []);
    SubsetCount(v.used, Upto(MAX_BLOCK_ID));
  }

  /** The write itself: file x now holds buf. */
  lemma BlockWritten(v: Vol, v': Vol, m: Contents, name: string, x: nat, frames: nat, buf: seq<Byte>)
    requires StoresBut(v, m, name, x, frames) && frames <= 1 && |buf| == DFS_BLOCK_SIZE
    requires FileWritten(v, v', x, 1 - frames, buf, 0) && |v'.used| == |v.used| + 128 * (1 - frames)
    ensures Stores(v', m[name := buf])
  {
    NewContent(v, v', m, name, x, frames, buf);
    WrittenAside(v, v', x, 1 - frames, buf);
    RestStays(v, v', m, name, x, 1);
    AllGood(v', m, name, x, buf);
  }

  lemma RestStays(v: Vol, v': Vol, m: Contents, name: string, x: nat, frames: nat)
    requires OnlyRoot(v) && OthersGood(v, m, name, x) && NamesFound(v, m, name) && OthersSame(v, v', x)
    requires x in v.chain ==> FileName(v, x) == name
    requires FileAt(v', v.dirs[0], name, x) && |v'.chain[x]| == frames && Dirs(v') == Dirs(v)
    requires |v'.chain| == |m[name := []]| && |v'.used| == 3 + COST * (|m[name := []]| - 1) + 1 + 128 * frames
    ensures StoresBut(v', m, name, x, frames)
  {
    SameRoot(v, v');
    OthersStay(v, v', m, name, x);
    NamesStay(v, v', m, name, x);
  }

  lemma AllGood(v: Vol, m: Contents, name: string, x: nat, buf: seq<Byte>)
    requires StoresBut(v, m, name, x, 1) && FileGood(v, m[name := buf], x)
    ensures Stores(v, m[name := buf])
  {
    UpdateCount(m, name, buf);
    UpdateCount(m, name, []);
    assert HasFile(v, v.dirs[0], name);
    forall y | y in v.chain && y != x ensures FileGood(v, m[name := buf], y) {
      assert FileGood(v, m, y);
    }
  }

  lemma NewContent(v: Vol, v': Vol, m: Contents, name: string, x: nat, frames: nat, buf: seq<Byte>)
    requires StoresBut(v, m, name, x, frames) && frames <= 1 && |buf| == DFS_BLOCK_SIZE
    requires FileWritten(v, v', x, 1 - frames, buf, 0)
    ensures FileGood(v', m[name := buf], x) && FileName(v', x) == name && FileAt(v', v'.dirs[0], name, x)
  {
    assert ViewOf(v', x) == Files(v')[x] && ViewOf(v, x) == Files(v)[x];
    var d := DataOf(v', x);
    assert d[..DFS_BLOCK_SIZE] == buf by {
      forall p: nat | p < DFS_BLOCK_SIZE ensures d[p] == buf[p] {
        assert d[p] == buf[p - 0];
      }
    }
  }

  // ----- the store

  /** A block is named by a file and a number. */
  type Key = (string, nat)
  type KeyMap = map<Key, seq<Byte>>

  function PathOfKey(k: Key): string {
    BlockPath.PathOf(k.0, k.1)
  }

  /** The store of paths holds exactly the blocks of the plain map. */
  ghost predicate Represents(m: Contents, blocks: KeyMap) {
    && |m| == |blocks|
    && (forall k :: k in blocks ==> PathOfKey(k) in m && m[PathOfKey(k)] == blocks[k])
    && (forall path :: path in m ==> HasKey(blocks, path))
  }

  ghost predicate HasKey(blocks: KeyMap, path: string) {
    exists k :: k in blocks && PathOfKey(k) == path
  }

  lemma KeyStored(m: Contents, blocks: KeyMap, k: Key)
    requires Represents(m, blocks)
    ensures PathOfKey(k) in m <==> k in blocks
  {
    if PathOfKey(k) in m {
      var j :| j in blocks && PathOfKey(j) == PathOfKey(k);
      SamePathSameKey(j, k);
    }
  }

  lemma KeyWritten(m: Contents, blocks: KeyMap, k: Key, bytes: seq<Byte>)
    requires Represents(m, blocks)
    ensures Represents(m[PathOfKey(k) := bytes], blocks[k := bytes])
  {
    hide PathOfKey, HasKey;
    var path := PathOfKey(k);
    var m', blocks' := m[path := bytes], blocks[k := bytes];
    KeyStored(m, blocks, k);
    UpdateCount(m, path, bytes);
    UpdateCount(blocks, k, bytes);
    forall j | j in blocks' ensures PathOfKey(j) in m' && m'[PathOfKey(j)] == blocks'[j] {
      SamePathSameKey(j, k);
    }
    forall other | other in m' ensures HasKey(blocks', other) {
      KeyRemains(blocks, k, bytes, other);
    }
  }

  lemma SamePathSameKey(j: Key, k: Key)
    ensures PathOfKey(j) == PathOfKey(k) ==> j == k
  {
    if PathOfKey(j) == PathOfKey(k) {
      BlockPath.PathInjective(j.0, j.1, k.0, k.1);
    }
  }

  lemma KeyRemains(blocks: KeyMap, k: Key, bytes: seq<Byte>, path: string)
    requires path == PathOfKey(k) || HasKey(blocks, path)
    ensures HasKey(blocks[k := bytes], path)
  {
    var j :| (j == k || j in blocks) && PathOfKey(j) == path;
    assert j in blocks[k := bytes];
  }

  /** An operation on the store. */
  datatype Op = WriteOp(key: Key, bytes: seq<Byte>) | ReadOp(key: Key)

  /** The block is stored already, or there is room for it and its path fits into
      an inode. */
  ghost predicate MayWrite(blocks: KeyMap, k: Key) {
    k in blocks || (|blocks| < CAPACITY && NameFits(PathOfKey(k), MAX_FILE_NAME))
  }

  /** The store can serve the operations: there is room for each new block, and
      only stored blocks are read. */
  ghost predicate Feasible(blocks: KeyMap, ops: seq<Op>)
    decreases |ops|
  {
    ops != [] ==>
      match ops[0]
      case WriteOp(k, bytes) =>
        |bytes| == DFS_BLOCK_SIZE && MayWrite(blocks, k) && Feasible(blocks[k := bytes], ops[1..])
      case ReadOp(k) => k in blocks && Feasible(blocks, ops[1..])
  }

  /** The plain map after the operations. */
  ghost function Final(blocks: KeyMap, ops: seq<Op>): KeyMap
    decreases |ops|
  {
    if ops == [] then blocks
    else if ops[0].WriteOp? then Final(blocks[ops[0].key := ops[0].bytes], ops[1..])
    else Final(blocks, ops[1..])
  }

  /** What the reads among the operations deliver, looked up in the plain map. */
  ghost function Answers(blocks: KeyMap, ops: seq<Op>): seq<seq<Byte>>
    requires Feasible(blocks, ops)
    decreases |ops|
  {
    if ops == [] then []
    else if ops[0].WriteOp? then Answers(blocks[ops[0].key := ops[0].bytes], ops[1..])
    else [blocks[ops[0].key]] + Answers(blocks, ops[1..])
  }

  /** A read delivers the bytes of the last write to the same file and number, no
      matter which other blocks were written in between. */
  lemma {:induction false} ReadsTheLastWrite(blocks: KeyMap, k: Key, bytes: seq<Byte>, others: seq<Op>)
    requires k in blocks && blocks[k] == bytes
    requires forall op :: op in others && op.WriteOp? ==> op.key != k
    requires Feasible(blocks, others + [ReadOp(k)])
    ensures var answers := Answers(blocks, others + [ReadOp(k)]);
      answers != [] && answers[|answers| - 1] == bytes
    decreases |others|
  {
    var ops := others + [ReadOp(k)];
    if others == [] {
      assert ops[1..] == [];
    } else {
      assert ops[0] == others[0] && ops[1..] == others[1..] + [ReadOp(k)];
      var blocks' := if ops[0].WriteOp? then blocks[ops[0].key := ops[0].bytes] else blocks;
      ReadsTheLastWrite(blocks', k, bytes, others[1..]);
    }
  }

  class BlockStore {
    const fs: FileSystem
    ghost var contents: Contents

    ghost predicate Valid()
      reads this, fs, fs.freemap, fs.fdtable
    {
      StoreOk(contents)
    }

    ghost predicate StoreOk(m: Contents)
      reads this, fs, fs.freemap, fs.fdtable
    {
      && fs.Valid() && AllClosed(fs.fdtable[..]) && fs.freemap as object != fs.fdtable
      && Stores(fs.V(), m)
    }

    /** A freshly made local file system. */
    constructor ()
      ensures Valid() && contents == map[]
      ensures fresh(fs) && fresh(fs.freemap) && fresh(fs.fdtable)
    {
      fs := new FileSystem();
      contents := map[];
      new;
      fs.Mkfs();
      EmptyStores(fs.V());
    }

    /** mkdir("/"): after it the directory exists. */
    method MakeRoot(ghost m: Contents)
      requires StoreOk(m)
      modifies fs, fs.freemap
      ensures StoreOk(m) && OnlyRoot(fs.V()) && fs.freemap == old(fs.freemap)
    {
      hide FdsOk, Inv;
      ghost var v := fs.V();
      if HasDir(v, "/") {
        RootKept(v, m);
      } else {
        RoomForRoot(v, m);
      }
      var r := fs.Mkdir("/");
      if !HasDir(v, "/") {
        RootCreated(v, fs.V(), m);
      }
    }

    /** open("/", path): file x is the one for the path, empty if it is new. */
    method OpenBlock(path: string, ghost m: Contents) returns (fd: nat, ghost x: nat)
      requires StoreOk(m) && OnlyRoot(fs.V()) && (path in m || (|m| < CAPACITY && NameFits(path, MAX_FILE_NAME)))
      modifies fs, fs.freemap, fs.fdtable
      ensures fs.Valid() && fs.freemap == old(fs.freemap) && fs.freemap as object != fs.fdtable
      ensures fd < fs.fdtable.Length && fs.fdtable[fd].valid && fs.fdtable[fd].cur == 0 && fs.fdtable[fd].inodeBid == x
      ensures ClosedBut(fs.fdtable[..], fd)
      ensures StoresBut(fs.V(), m, path, x, if path in m then 1 else 0)
      ensures path in m ==> fs.V() == old(fs.V())
    {
      ghost var v, fds := fs.V(), fs.fdtable[..];
      MayOpenBlock(v, fds, m, path);
      RootNamed(v, 0);
      assert !fds[0].valid;
      var r := fs.Open("/", path);
      fd := r;
      x := fs.fdtable[fd].inodeBid;
      OneChanged(fds, fs.fdtable[..], fd);
      BlockOpened(v, fs.V(), m, path, x);
    }

    method CloseBlock(fd: nat, ghost m: Contents)
      requires fs.Valid() && ClosedBut(fs.fdtable[..], fd) && fs.freemap as object != fs.fdtable && Stores(fs.V(), m)
      modifies fs.fdtable
      ensures StoreOk(m)
    {
      fs.Close(fd);
    }

    /** Stores the 1024 bytes of buf under the given path. */
    method WriteBlock(path: string, buf: seq<Byte>)
      requires Valid() && |buf| == DFS_BLOCK_SIZE
      requires path in contents || (|contents| < CAPACITY && NameFits(path, MAX_FILE_NAME))
      modifies this, fs, fs.freemap, fs.fdtable
      ensures Valid() && contents == old(contents)[path := buf] && fs.freemap == old(fs.freemap)
    {
      hide Stores, Inv, FdsOk, AllClosed;
      ghost var m := contents;
      MakeRoot(m);
      OpenAndFill(path, buf, m);
      contents := m[path := buf];
    }

    method OpenAndFill(path: string, buf: seq<Byte>, ghost m: Contents)
      requires StoreOk(m) && OnlyRoot(fs.V()) && |buf| == DFS_BLOCK_SIZE
      requires path in m || (|m| < CAPACITY && NameFits(path, MAX_FILE_NAME))
      modifies fs, fs.freemap, fs.fdtable
      ensures StoreOk(m[path := buf]) && fs.freemap == old(fs.freemap)
    {
      var fd;
      ghost var x;
      hide Stores, Inv, FdsOk, StoresBut, ClosedBut;
      fd, x := OpenBlock(path, m);
      FillBlock(fd, path, buf, x, m);
      CloseBlock(fd, m[path := buf]);
    }

    /** The sfs_write of a block into its open file. */
    method FillBlock(fd: nat, path: string, buf: seq<Byte>, ghost x: nat, ghost m: Contents)
      requires fs.Valid() && |buf| == DFS_BLOCK_SIZE && (path in m || |m| < CAPACITY)
      requires fd < fs.fdtable.Length && fs.fdtable[fd].valid && fs.fdtable[fd].cur == 0 && fs.fdtable[fd].inodeBid == x
      requires ClosedBut(fs.fdtable[..], fd) && fs.freemap as object != fs.fdtable
      requires StoresBut(fs.V(), m, path, x, if path in m then 1 else 0)
      modifies fs, fs.freemap, fs.fdtable
      ensures fs.Valid() && fs.freemap == old(fs.freemap)
      ensures ClosedBut(fs.fdtable[..], fd)
      ensures Stores(fs.V(), m[path := buf])
    {
      ghost var v, fds, frames := fs.V(), fs.fdtable[..], if path in m then 1 else 0;
      RoomForBlock(v, m, path, x, frames);
      var written := fs.Write(fd, buf, DFS_BLOCK_SIZE);
      OneChanged(fds, fs.fdtable[..], fd);
      BlockWritten(v, fs.V(), m, path, x, frames, buf);
    }

    /** Reads the block stored under the path into buf. */
    method ReadBlock(path: string, buf: array<Byte>)
      requires Valid() && path in contents && DFS_BLOCK_SIZE <= buf.Length
      requires buf as object != fs.freemap && buf as object != fs.fdtable
      modifies fs, fs.freemap, fs.fdtable, buf
      ensures Valid() && contents == old(contents) && fs.freemap == old(fs.freemap)
      ensures buf[..DFS_BLOCK_SIZE] == contents[path] && buf[DFS_BLOCK_SIZE..] == old(buf[DFS_BLOCK_SIZE..])
    {
      var fd;
      ghost var x;
      hide Stores, Inv, FdsOk, FileGood, ClosedBut;
      ghost var m := contents;
      fd, x := OpenStored(path, m);
      DeliverBlock(fd, path, buf, x, m);
      CloseBlock(fd, m);
    }

    /** open("/", path) of a path that is stored. */
    method OpenStored(path: string, ghost m: Contents) returns (fd: nat, ghost x: nat)
      requires StoreOk(m) && path in m
      modifies fs, fs.freemap, fs.fdtable
      ensures fs.Valid() && fs.freemap == old(fs.freemap) && fs.V() == old(fs.V())
      ensures fd < fs.fdtable.Length && fs.fdtable[fd].valid && fs.fdtable[fd].cur == 0 && fs.fdtable[fd].inodeBid == x
      ensures ClosedBut(fs.fdtable[..], fd) && FileGood(fs.V(), m, x) && FileName(fs.V(), x) == path
    {
      fd, x := OpenBlock(path, m);
      GoodFile(fs.V(), m, path, x);
    }

    /** The sfs_read of a block from its open file. */
    method DeliverBlock(fd: nat, path: string, buf: array<Byte>, ghost x: nat, ghost m: Contents)
      requires fs.Valid() && path in m && DFS_BLOCK_SIZE <= buf.Length
      requires buf as object != fs.freemap && buf as object != fs.fdtable && fs.freemap as object != fs.fdtable
      requires fd < fs.fdtable.Length && fs.fdtable[fd].valid && fs.fdtable[fd].cur == 0 && fs.fdtable[fd].inodeBid == x
      requires ClosedBut(fs.fdtable[..], fd) && FileGood(fs.V(), m, x) && FileName(fs.V(), x) == path
      modifies fs.fdtable, buf
      ensures fs.Valid() && fs.V() == old(fs.V()) && ClosedBut(fs.fdtable[..], fd)
      ensures buf[..DFS_BLOCK_SIZE] == m[path] && buf[DFS_BLOCK_SIZE..] == old(buf[DFS_BLOCK_SIZE..])
    {
      ghost var v, fds, before := fs.V(), fs.fdtable[..], buf[..];
      var n := fs.Read(fd, buf, DFS_BLOCK_SIZE);
      OneChanged(fds, fs.fdtable[..], fd);
      BlockDelivered(v, m, path, x, buf[..], before);
    }

    /** Any run of writes and reads: the answers and the final contents are those
        of a plain map from file and number to 1024 bytes. */
    method Serve(ops: seq<Op>, ghost blocks: KeyMap) returns (answers: seq<seq<Byte>>)
      requires Valid() && Represents(contents, blocks) && Feasible(blocks, ops)
      modifies this, fs, fs.freemap, fs.fdtable
      ensures Valid() && Represents(contents, Final(blocks, ops)) && answers == Answers(blocks, ops)
    {
      hide Valid, Stores, Represents;
      answers := [];
      ghost var now := blocks;
      var i := 0;
      while i < |ops|
        invariant i <= |ops| && Valid() && Represents(contents, now) && fs.freemap == old(fs.freemap)
        invariant Feasible(now, ops[i..])
        invariant Final(now, ops[i..]) == Final(blocks, ops)
        invariant answers + Answers(now, ops[i..]) == Answers(blocks, ops)
      {
        var answer;
        answer, now := ServeOne(ops[i], now);
        assert ops[i..][1..] == ops[i + 1..];
        answers, i := answers + answer, i + 1;
      }
    }

    method ServeOne(op: Op, ghost blocks: KeyMap) returns (answer: seq<seq<Byte>>, ghost blocks': KeyMap)
      requires Valid() && Represents(contents, blocks)
      requires match op
        case WriteOp(k, bytes) => |bytes| == DFS_BLOCK_SIZE && MayWrite(blocks, k)
        case ReadOp(k) => k in blocks
      modifies this, fs, fs.freemap, fs.fdtable
      ensures Valid() && fs.freemap == old(fs.freemap) && Represents(contents, blocks')
      ensures blocks' == if op.WriteOp? then blocks[op.key := op.bytes] else blocks
      ensures answer == if op.ReadOp? then [blocks[op.key]] else []
    {
      hide Stores, Inv, FdsOk;
      KeyStored(contents, blocks, op.key);
      if op.WriteOp? {
        KeyWritten(contents, blocks, op.key, op.bytes);
        WriteBlock(PathOfKey(op.key), op.bytes);
        answer, blocks' := [], blocks[op.key := op.bytes];
      } else {
        var buf := new Byte[DFS_BLOCK_SIZE];
        ReadBlock(PathOfKey(op.key), buf);
        assert buf[..] == buf[..DFS_BLOCK_SIZE];
        answer, blocks' := [buf[..]], blocks;
      }
    }
  }
}
