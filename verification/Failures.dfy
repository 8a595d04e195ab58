/** Runs that reach the states in which the program does less than it promises. */
module Failures {
  import opened Options
  import opened DiskBytes
  import opened SfsLayout
  import opened SfsBitmap
  import opened SfsVolume
  import opened SfsVolumeLemmas
  import opened SfsSteps
  import opened SfsGrow
  import opened SfsTransfer
  import opened SfsStored
  import opened SfsReach
  import opened SfsStore
  import opened SfsFileSystem
  import DfsModel
  import Namenode
  import SfsServe

  // ----- rmdir

  method NewFileSystem() returns (fs: FileSystem)
    ensures fresh(fs) && fresh(fs.freemap) && fresh(fs.fdtable)
    ensures fs.Valid() && Dirs(fs.V()) == [] && Files(fs.V()) == map[] && fs.Used() == {1, 2} && |fs.disk| == SFS_NBLOCKS + 1
    ensures forall i: nat :: i < fs.fdtable.Length ==> !fs.fdtable[i].valid
  {
    fs := new FileSystem();
    fs.Mkfs();
  }

  lemma NoDirs(v: Vol, name: string)
    requires Dirs(v) == []
    ensures !HasDir(v, name)
  {
    assert |v.dirs| == |Dirs(v)|;
  }

  lemma DirAtEnd(v: Vol, v': Vol, name: string)
    requires DirCreated(v, v', name)
    ensures |Dirs(v')| == |Dirs(v)| + 1 && Dirs(v')[..|Dirs(v)|] == Dirs(v) && Files(v') == Files(v)
    ensures DirNamed(v', |Dirs(v)|, name) && |v'.used| == |v.used| + 1
    ensures forall other: string :: other != name && !HasDir(v, other) ==> !HasDir(v', other)
  {
    forall other: string | other != name && HasDir(v', other) ensures HasDir(v, other) {
      var i: nat :| DirNamed(v', i, other);
      assert DirNamed(v, i, other);
    }
  }

  method TwoDirectories() returns (fs: FileSystem)
    ensures fresh(fs) && fresh(fs.freemap) && fresh(fs.fdtable) && fs.Valid() && Files(fs.V()) == map[]
    ensures |Dirs(fs.V())| == 2 && Dirs(fs.V())[0].name == "a" && Dirs(fs.V())[1].name == "b"
  {
    hide Inv, FdsOk, DirCreated, NameFits;
    fs := NewFileSystem();
    ghost var v0 := fs.V();
    NoDirs(v0, "a");
    NoDirs(v0, "b");
    var r := fs.Mkdir("a");
    ghost var v1 := fs.V();
    DirAtEnd(v0, v1, "a");
    r := fs.Mkdir("b");
    DirAtEnd(v1, fs.V(), "b");
    assert Dirs(fs.V())[0] == Dirs(v1)[0];
  }

  /** mkdir "a", mkdir "b", rmdir "a": the list is empty, although "b" was not removed. */
  method RmdirLosesTheRest() returns (fs: FileSystem, ghost before: Vol)
    ensures fs.Valid() && |Dirs(before)| == 2 && Dirs(before)[0].name == "a" && Dirs(before)[1].name == "b"
    ensures DirRemoved(before, fs.V(), 0) && Dirs(fs.V()) == [] != Dirs(before)[1..]
  {
    hide Inv, FdsOk, EmptyDir, AllStoredKept;
    fs := TwoDirectories();
    before := fs.V();
    assert DirNamed(before, 0, "a");
    NothingInside(before, 0);
    var r := fs.Rmdir("a");
  }

  /** A directory of a volume without files is empty. */
  lemma NothingInside(v: Vol, i: nat)
    requires Inv(v) && Files(v) == map[] && i < |v.dirs|
    ensures EmptyDir(v, v.dirs[i])
  {
    assert DirLinkOk(v, i);
    forall s: nat | s < DIR_SLOTS ensures At(v.disk, v.dirs[i]).dir.inodes[s] == 0 {
      assert v.chain.Keys == Files(v).Keys;
      if At(v.disk, v.dirs[i]).dir.inodes[s] != 0 {
        SlotIsFile(v, v.dirs[i], s);
        assert false;
      }
    }
  }
  // ----- which blocks a run takes

  lemma NextId(n: nat, x: nat)
    requires x > 0 && x !in Upto(n) && Lowest(Upto(n), x)
    ensures x == n + 1 && Upto(n) + {x} == Upto(n + 1)
  {
    assert 1 <= n + 1 < x ==> n + 1 in Upto(n);
  }

  lemma {:induction false} AscendingGap(ids: seq<nat>, i: nat, j: nat)
    requires Ascending(ids) && i <= j < |ids|
    ensures ids[i] + (j - i) <= ids[j]
    decreases j
  {
    if i < j {
      AscendingGap(ids, i, j - 1);
      assert ids[j - 1] < ids[j];
    }
  }

  /** A frame and its 127 content blocks, taken when ids 1..m are in use. */
  lemma FrameIds(m: nat, used: set<nat>, f: nat, ids: seq<nat>)
    requires HandedOut(Upto(m), used, [f], ids) && |ids| == FRAME_COUNT && |used| == m + FRAME_COUNT + 1 && f > 0
    ensures f == m + 1 && used == Upto(m + FRAME_COUNT + 1) && forall k: nat :: k < FRAME_COUNT ==> ids[k] == m + 2 + k
  {
    var last := ids[FRAME_COUNT - 1];
    assert f in [f] && ids[0] in ids && last in ids;
    AscendingGap(ids, 0, FRAME_COUNT - 1);
    assert Upto(last) <= used;
    SubsetCount(Upto(last), used);
    SameSize(Upto(last), used);
    forall k: nat | k < FRAME_COUNT ensures ids[k] == m + 2 + k {
      AscendingGap(ids, 0, k);
      AscendingGap(ids, k, FRAME_COUNT - 1);
    }
  }

  lemma SameSize(s: set<nat>, t: set<nat>)
    requires s <= t && |s| >= |t|
    ensures s == t
  {
    SubsetCount(t - s, t);
    assert t == s + (t - s);
  }

  /** Directory "a" is in block 3, with files that have one frame each and names of
      at most i letters; blocks were taken in order, and the backing file has the
      length that mkfs gave it. */
  ghost predicate Filled(v: Vol, i: nat) {
    && Inv(v) && v.used == Upto(3 + 129 * i) && |v.disk| == SFS_NBLOCKS + 1
    && Dirs(v) == [DirView(3, "a")] && |v.chain| == i
    && ShortNames(v, i)
  }

  method OneDirectory() returns (fs: FileSystem)
    ensures fresh(fs) && fresh(fs.freemap) && fresh(fs.fdtable)
    ensures fs.Valid() && Filled(fs.V(), 0) && AllClosed(fs.fdtable[..])
  {
    hide Inv, FdOk;
    fs := NewFileSystem();
    ghost var v := fs.V();
    NoDirs(v, "a");
    var r := fs.Mkdir("a");
    FirstDir(v, fs.V());
  }

  lemma FirstDir(v: Vol, v': Vol)
    requires Inv(v') && DirCreated(v, v', "a") && Dirs(v) == [] && Files(v) == map[] && v.used == {1, 2} && |v.disk| == SFS_NBLOCKS + 1
    ensures Filled(v', 0)
  {
    assert Upto(0) == {} && Upto(1) == {1} && Upto(2) == {1, 2};
    DirIdsNonzero(v', |v'.dirs| - 1);
    NextId(2, v'.dirs[|v'.dirs| - 1]);
    assert v'.chain.Keys == Files(v').Keys == {};
  }

  function NameOf(n: nat): string {
    seq(n, _ => 'a')
  }

  /** There is room for one more file. */
  lemma MayAdd(v: Vol, fds: seq<Fd>, i: nat)
    requires Filled(v, i) && i < 8
    ensures |v.dirs| == 1 && v.dirs[0] == 3 && DirNamed(v, 0, "a") && !HasFile(v, 3, NameOf(i + 1))
    ensures MayOpen(v, fds, 3, NameOf(i + 1))
  {
    hide Upto;
    assert |v.dirs| == |Dirs(v)| == 1 && Dirs(v)[0] == DirView(3, "a") && DirLinkOk(v, 0);
    SubsetCount(FilesIn(v, 3), v.chain.Keys);
    assert |v.chain.Keys| == |v.chain|;
    FreeSlot(v, 3);
  }

  /** The file was made in the next block. */
  ghost predicate Added(v: Vol, i: nat, x: nat) {
    && Inv(v) && v.used == Upto(4 + 129 * i) && |v.disk| == SFS_NBLOCKS + 1
    && Dirs(v) == [DirView(3, "a")] && |v.chain| == i + 1 && x in v.chain && v.chain[x] == []
    && ShortNames(v, i + 1)
  }

  /** Names stay short when a file with the next name is made, or one is written to. */
  ghost predicate ShortNames(v: Vol, i: nat) {
    forall y :: y in v.chain ==> |FileName(v, y)| <= i
  }

  lemma NamesAdded(v: Vol, v': Vol, i: nat, d: nat, x: nat)
    requires ShortNames(v, i) && FileCreated(v, v', d, NameOf(i + 1), x)
    ensures ShortNames(v', i + 1)
  {
    hide StoredKept, Lowest, Dirs;
    forall y | y in v'.chain ensures |FileName(v', y)| <= i + 1 {
      assert y in Files(v') && Files(v')[y] == ViewOf(v', y);
      if y != x {
        assert y in Files(v) && Files(v)[y] == ViewOf(v, y);
      }
    }
  }

  lemma NamesWritten(v: Vol, v': Vol, i: nat, x: nat, data: seq<Byte>)
    requires ShortNames(v, i) && x in v.chain && Files(v') == Files(v)[x := Files(v)[x].(data := data)]
    ensures ShortNames(v', i)
  {
    forall y | y in v'.chain ensures |FileName(v', y)| <= i {
      assert y in Files(v') && Files(v')[y] == ViewOf(v', y);
      assert y in Files(v) && Files(v)[y] == ViewOf(v, y);
    }
  }

  lemma BlockTaken(v: Vol, v': Vol, n: nat, d: nat, name: string, x: nat)
    requires v.used == Upto(n) && FileCreated(v, v', d, name, x) && x > 0
    ensures x == n + 1 && v'.used == Upto(n + 1) && |v'.disk| == LengthWith(v.disk, x) && Dirs(v') == Dirs(v)
  {
    hide StoredKept;
    NextId(n, x);
  }

  lemma FileAdded(v: Vol, v': Vol, i: nat, x: nat)
    requires Filled(v, i) && i < 8 && Inv(v') && FileCreated(v, v', 3, NameOf(i + 1), x)
    ensures Added(v', i, x)
  {
    hide Inv, Upto, ShortNames, NameOf, FileCreated;
    OneMoreFile(v, v', 3, NameOf(i + 1), x);
    FileHasSlot(v', x);
    BlockTaken(v, v', 3 + 129 * i, 3, NameOf(i + 1), x);
    NamesAdded(v, v', i, 3, x);
  }

  lemma OneMoreFile(v: Vol, v': Vol, d: nat, name: string, x: nat)
    requires Inv(v) && FileCreated(v, v', d, name, x)
    ensures |v'.chain| == |v.chain| + 1 && x in v'.chain && v'.chain[x] == []
  {
    hide StoredKept, Lowest, Files;
    OwnedAreUsed(v);
    UpdateCount(v.chain, x, []);
  }

  /** The content of the file lies in the next 127 blocks after its frame. */
  ghost predicate Placed(v: Vol, i: nat, x: nat) {
    && x in v.chain && |v.chain[x]| == 1
    && forall k: nat :: k < FRAME_COUNT ==> IdAt(v.disk, v.chain[x], k) == 6 + 129 * i + k
  }

  lemma FilePlaced(v: Vol, v': Vol, i: nat, x: nat, bytes: seq<Byte>)
    requires Added(v, i, x) && Inv(v') && FileWritten(v, v', x, 1, bytes, 0) && |v'.used| == |v.used| + 128
    ensures Placed(v', i, x) && v'.used == Upto(3 + 129 * (i + 1)) && v'.chain[x][0] == 5 + 129 * i
  {
    hide Inv, Upto, StoredKept, Rewritten, Touched, WrittenEnd, DataOf, Files;
    var f := v'.chain[x][0];
    FrameLink(v', x, 0);
    assert v'.chain[x][0..] == [f];
    FrameIds(4 + 129 * i, v'.used, f, NewIds(v', x, 0));
    forall k: nat | k < FRAME_COUNT ensures IdAt(v'.disk, v'.chain[x], k) == 6 + 129 * i + k {
      assert NewIds(v', x, 0)[k] == IdAt(v'.disk, v'.chain[x], k);
    }
  }

  lemma FileFilled(v: Vol, v': Vol, i: nat, x: nat, bytes: seq<Byte>)
    requires Added(v, i, x) && i < 8 && Inv(v') && FileWritten(v, v', x, 1, bytes, 0) && |v'.used| == |v.used| + 128
    requires |bytes| <= 2 * BLOCK_SIZE
    ensures Placed(v', i, x) && Filled(v', i + 1)
  {
    hide Inv, Upto, StoredKept, Rewritten, Touched, DataOf, HandedOut, ShortNames, Files, WrittenEnd, Placed;
    FilePlaced(v, v', i, x, bytes);
    LengthStays(v, v', i, x, bytes);
    NamesWritten(v, v', i + 1, x, DataOf(v', x));
    UpdateCount(v.chain, x, v'.chain[x]);
  }

  lemma LengthStays(v: Vol, v': Vol, i: nat, x: nat, bytes: seq<Byte>)
    requires i < 8 && |v.disk| == SFS_NBLOCKS + 1 && x in v.chain && v.chain[x] == [] && |bytes| <= 2 * BLOCK_SIZE
    requires Placed(v', i, x) && v'.chain[x][0] == 5 + 129 * i && WrittenEnd(v, v', x, 0, |bytes|)
    ensures |v'.disk| == |v.disk|
  {
    assert v'.chain[x][0..] == [v'.chain[x][0]];
  }

  /** Opens a new file and writes to it. */
  method AddFile(fs: FileSystem, i: nat, bytes: seq<Byte>) returns (fd: nat)
    requires fs.Valid() && Filled(fs.V(), i) && i < 8 && AllClosed(fs.fdtable[..]) && |bytes| <= 2 * BLOCK_SIZE && bytes != []
    modifies fs, fs.freemap, fs.fdtable
    ensures fs.Valid() && fs.freemap == old(fs.freemap) && Filled(fs.V(), i + 1)
    ensures fd < fs.fdtable.Length && fs.fdtable[fd].valid && fs.fdtable[fd].cur == |bytes|
    ensures AllClosed(fs.fdtable[..][fd := fs.fdtable[fd].(valid := false)])
    ensures Placed(fs.V(), i, fs.fdtable[fd].inodeBid)
  {
    hide Inv, FdOk, Filled, Added, Placed, FileWritten, FileCreated;
    ghost var v, fds := fs.V(), fs.fdtable[..];
    MayAdd(v, fds, i);
    NameIsUnique(v, 0, "a");
    assert HasDir(v, "a") && !fs.fdtable[..][0].valid;
    var r := fs.Open("a", NameOf(i + 1));
    fd := r;
    ghost var v1, x := fs.V(), fs.fdtable[fd].inodeBid;
    assert Opened(v, v1, 3, NameOf(i + 1), x);
    FileAdded(v, v1, i, x);
    RoomLeft(v1, i, x, |bytes|);
    var n := fs.Write(fd, bytes, |bytes|);
    FileFilled(v1, fs.V(), i, x, bytes);
  }

  lemma RoomLeft(v: Vol, i: nat, x: nat, length: nat)
    requires Added(v, i, x) && i < 8 && 0 < length <= 2 * BLOCK_SIZE
    ensures x in v.chain && |v.chain[x]| == 0 && Missing(0, length) == 1 && Room(v, FRAME_COUNT + 1)
  {
  }
  // ----- remove

  /** A file of one byte is made and removed: no file is left, but its 127 content
      blocks stay marked used. */
  method RemoveLeaks() returns (fs: FileSystem)
    ensures fs.Valid() && Files(fs.V()) == map[] && fs.V().dirs != [] && |fs.Used()| == 3 + FRAME_COUNT
  {
    hide Inv, FdOk, Filled, Placed, FileRemoved;
    fs := OneDirectory();
    var fd := AddFile(fs, 0, [0]);
    ghost var v, x := fs.V(), fs.fdtable[fd].inodeBid;
    fs.Remove(fd);
    LeftBehind(v, fs.V(), x);
  }

  lemma LeftBehind(v: Vol, v': Vol, x: nat)
    requires Filled(v, 1) && Placed(v, 0, x) && FileRemoved(v, v', x)
    ensures Files(v') == map[] && v'.dirs != [] && |v'.used| == 3 + FRAME_COUNT
  {
    hide Inv, AllStoredKept;
    OnlyFile(v.chain, x);
    SfsServe.RemovedUsed(v, v', x);
    assert |Dirs(v)| == |v.dirs|;
    assert Files(v').Keys == {};
  }

  lemma OnlyFile(m: map<nat, seq<nat>>, x: nat)
    requires |m| == 1 && x in m
    ensures m.Keys == {x}
  {
    SameSize({x}, m.Keys);
  }

  // ----- transfers from the second block on

  /** A file of 513 bytes leaves the cursor in its second block; the next transfer of
      one byte uses the wrong block. */
  method TransferInSecondBlock() returns (fs: FileSystem, fd: nat)
    ensures fs.Valid() && fd < fs.fdtable.Length && fs.fdtable[fd].valid && fs.fdtable[fd].inodeBid in fs.chain
    ensures fs.fdtable[fd].cur == BLOCK_SIZE + 1 && fs.fdtable[fd].cur + 1 < FRAME_SIZE * |fs.chain[fs.fdtable[fd].inodeBid]|
    ensures !RightBlock(fs.V(), fs.fdtable[fd].inodeBid, fs.fdtable[fd].cur, 1, 1)
  {
    hide Inv, FdOk, Filled;
    fs := OneDirectory();
    fd := AddFile(fs, 0, Zeros(BLOCK_SIZE + 1));
  }

  // ----- content beyond the end of the backing file

  method AddAndClose(fs: FileSystem, i: nat) returns (ghost x: nat)
    requires fs.Valid() && Filled(fs.V(), i) && i < 8 && AllClosed(fs.fdtable[..])
    modifies fs, fs.freemap, fs.fdtable
    ensures fs.Valid() && fs.freemap == old(fs.freemap) && Filled(fs.V(), i + 1) && AllClosed(fs.fdtable[..])
    ensures Placed(fs.V(), i, x)
  {
    hide Inv, FdOk, Filled, Placed;
    var fd := AddFile(fs, i, [0]);
    x := fs.fdtable[fd].inodeBid;
    fs.Close(fd);
  }

  /** Byte p of the file is at a block that the backing file does not have. */
  lemma Beyond(v: Vol, x: nat)
    requires Filled(v, 8) && Placed(v, 7, x)
    ensures 116 * BLOCK_SIZE < FRAME_SIZE * |v.chain[x]| && !ReadsTrue(v, x, 116 * BLOCK_SIZE)
  {
    hide Inv;
    assert IdAt(v.disk, v.chain[x], 116) == 6 + 129 * 7 + 116;
    ReadsTrueWhenStored(v, x, 116 * BLOCK_SIZE);
  }

  /** Eight files of one byte each: the end of the last one lies beyond the 1025 blocks
      of the backing file, and reading it gives whatever the buffer held. */
  method ContentBeyondTheEnd() returns (fs: FileSystem, ghost x: nat, p: nat)
    ensures fs.Valid() && x in fs.chain && p < FRAME_SIZE * |fs.chain[x]| && !ReadsTrue(fs.V(), x, p)
  {
    hide Inv, FdOk, Filled, ReadsTrue;
    fs := OneDirectory();
    p := 116 * BLOCK_SIZE;
    x := AddAndClose(fs, 0);
    var i := 1;
    while i < 8
      invariant 1 <= i <= 8 && fresh(fs) && fresh(fs.freemap) && fresh(fs.fdtable)
      invariant fs.Valid() && Filled(fs.V(), i) && AllClosed(fs.fdtable[..]) && Placed(fs.V(), i - 1, x)
    {
      x := AddAndClose(fs, i);
      i := i + 1;
    }
    Beyond(fs.V(), x);
  }

  // ----- pushing a file twice

  /** A file pushed twice: the namenode numbers its only block 1, although the client
      cuts the file from block 0 on. */
  method PushedTwice() returns (response: Namenode.Response)
    ensures response.FileResponse? && |response.image.blocks| == DfsModel.MAX_FILE_BLK_COUNT
    ensures response.image.blocknum == 1 && response.image.blocks[0].blockId == 1
  {
    var nn := new Namenode.NameServer();
    nn.ValidIsCounted();
    nn.RegisterDatanode(1, DfsModel.Addr("127.0.0.1", 1));
    ghost var images := nn.fileImages[..];
    assert DfsModel.Find(images, |images|, "f") == -1 && DfsModel.FirstFree(images, |images|) != -1 by {
      assert images[0].None?;
    }
    response := nn.GetFileReceivers("f", 1);
    ghost var k := DfsModel.FirstFree(images, |images|);
    assert DfsModel.Find(nn.fileImages[..], |images|, "f") == k by {
      assert nn.fileImages[..][k].value.name == "f";
    }
    response := nn.GetFileReceivers("f", 1);
  }
}
