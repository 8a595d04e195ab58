/** The SFS operations, as methods on the mounted file system. */
module SfsFileSystem {
  import opened DiskBytes
  import opened SfsLayout
  import opened SfsBitmap
  import opened SfsVolume
  import opened SfsVolumeLemmas
  import opened SfsFileLemmas
  import opened SfsSteps
  import opened SfsGrow
  import opened SfsTransfer

  method MarkBit(w: bv32, j: nat) returns (w': bv32)
    requires j < 32
    ensures SetsBit(w, j, w')
  {
    var m := Mask(j);
    w' := w | m;
    OrSetsBit(w, j, m, w');
  }

  method UnmarkBit(w: bv32, j: nat) returns (w': bv32)
    requires j < 32
    ensures ClearsBit(w, j, w')
  {
    var m := Mask(j);
    w' := w & !m;
    AndNotClearsBit(w, j, m, w');
  }

  /** The comparison with entry_full: 32 one bits. */
  method IsFull(w: bv32) returns (full: bool)
    ensures full <==> AllSet(w)
  {
    EntryFull(w);
    full := w == 0xFFFF_FFFF;
  }

  method TestBit(w: bv32, j: nat) returns (b: bool)
    requires j < 32
    ensures b == Has(w, Mask(j))
  {
    b := w & Mask(j) != 0;
  }

  /** The lowest clear bit of a word that is not full. */
  method FirstClearBit(w: bv32) returns (j: nat)
    requires !AllSet(w)
    ensures IsFirstClear(w, j)
  {
    j := 0;
    while j < 32
      invariant j <= 32
      invariant forall k: nat :: k < j ==> Has(w, Mask(k))
    {
      var used := TestBit(w, j);
      if !used {
        return;
      }
      j := j + 1;
    }
    assert false;
  }

  class FileSystem {
    /** The backing file. */
    var disk: seq<Block>
    /** The in-memory superblock and freemap. */
    var sb: Superblock
    var freemap: array<bv32>
    const fdtable: array<Fd>

    ghost var dirs: seq<nat>
    ghost var chain: map<nat, seq<nat>>
    ghost var own: map<nat, Owner>

    ghost function Used(): set<nat>
      reads this`freemap, freemap
    {
      UsedOf(freemap[..])
    }

    ghost function V(): Vol
      reads this, freemap
    {
      Vol(disk, Used(), dirs, chain, own)
    }

    /** The in-memory freemap is the one on disk. */
    ghost predicate Synced()
      reads this, freemap
    {
      freemap.Length == FREEMAP_WORDS && At(disk, 1) == FreemapBlock(freemap[..])
    }

    /** The in-memory superblock is the one on disk. */
    ghost predicate Loaded()
      reads this
    {
      At(disk, 0) == SuperBlock(sb)
    }

    ghost predicate Valid()
      reads this, freemap, fdtable
    {
      && Inv(V())
      && Synced()
      && FdsOk(V(), fdtable[..])
      && (Loaded() || forall i: nat :: i < fdtable.Length ==> !fdtable[i].valid)
    }

    // ----- blocks

    method WriteBlock(block: Block, bid: nat)
      modifies this`disk
      ensures disk == Put(old(disk), bid, block) && freemap[..] == old(freemap[..]) && Used() == old(Used())
    {
      disk := Put(disk, bid, block);
    }

    method LoadSuperblock()
      requires At(disk, 0).SuperBlock?
      modifies this`sb
      ensures Loaded()
    {
      sb := disk[0].sb;
    }

    /** Writes the freemap block; does nothing while no superblock is loaded. */
    method FlushFreemap()
      requires sb.nfreemapBlocks <= 1
      modifies this`disk
      ensures disk == if sb.nfreemapBlocks == 1 then Put(old(disk), 1, FreemapBlock(freemap[..])) else old(disk)
    {
      var bid := 1;
      while bid <= sb.nfreemapBlocks
        invariant 1 <= bid <= 2
        invariant bid == 1 ==> disk == old(disk)
        invariant bid == 2 ==> sb.nfreemapBlocks == 1 && disk == Put(old(disk), 1, FreemapBlock(freemap[..]))
      {
        WriteBlock(FreemapBlock(freemap[..]), bid);
        bid := bid + 1;
      }
    }

    /** Sets the first clear bit of word i. */
    method TakeBit(i: nat) returns (bid: nat)
      requires freemap.Length == FREEMAP_WORDS && sb.nfreemapBlocks == 1
      requires i < FREEMAP_WORDS && !AllSet(freemap[i])
      requires forall b :: 1 <= b <= 32 * i ==> b in Used()
      modifies this`disk, freemap
      ensures 1 <= bid <= MAX_BLOCK_ID && bid !in old(Used()) && (forall b :: 1 <= b < bid ==> b in old(Used()))
      ensures Used() == old(Used()) + {bid}
      ensures disk == Put(old(disk), 1, FreemapBlock(freemap[..]))
    {
      ghost var words := freemap[..];
      assert Used() == UsedOf(words);
      var j := FirstClearBit(freemap[i]);
      LowestFree(words, i, j);
      var w := MarkBit(freemap[i], j);
      SetBitAddsId(words, i, j, w);
      freemap[i] := w;
      assert freemap[..] == words[i := w];
      FlushFreemap();
      bid := j + 1 + i * 32;
    }

    /** Takes the lowest free block id, or returns 0 when all 4096 are in use. */
    method AllocBlock() returns (bid: nat)
      requires freemap.Length == FREEMAP_WORDS && sb.nfreemapBlocks == 1
      modifies this`disk, freemap
      ensures bid == 0 <==> old(Used()) == Upto(MAX_BLOCK_ID)
      ensures bid == 0 ==> freemap[..] == old(freemap[..]) && disk == old(disk)
      ensures bid != 0 ==>
        && bid <= MAX_BLOCK_ID && bid !in old(Used()) && (forall b :: 1 <= b < bid ==> b in old(Used()))
        && Used() == old(Used()) + {bid}
        && disk == Put(old(disk), 1, FreemapBlock(freemap[..]))
    {
      ghost var words := freemap[..];
      var size := sb.nfreemapBlocks * BLOCK_SIZE / 4;
      var i := 0;
      while i < size
        invariant i <= size == |words| && freemap[..] == words && disk == old(disk)
        invariant forall b :: 1 <= b <= 32 * i ==> b in UsedOf(words)
      {
        var full := IsFull(freemap[i]);
        if !full {
          bid := TakeBit(i);
          return;
        }
        WordFull(words, i);
        i := i + 1;
      }
      AllUsed(words);
      return 0;
    }

    /** Marks a block id as free. */
    method FreeBlock(bid: nat)
      requires freemap.Length == FREEMAP_WORDS && sb.nfreemapBlocks == 1
      requires 1 <= bid <= MAX_BLOCK_ID
      modifies this`disk, freemap
      ensures Used() == old(Used()) - {bid}
      ensures disk == Put(old(disk), 1, FreemapBlock(freemap[..]))
    {
      ghost var words := freemap[..];
      var b := bid - 1;
      var entryLoc := b / 8 / 4;
      var bitLoc := b - entryLoc * 32;
      var w := UnmarkBit(freemap[entryLoc], bitLoc);
      ClearBitRemovesId(words, entryLoc, bitLoc, w);
      freemap[entryLoc] := w;
      assert freemap[..] == words[entryLoc := w];
      FlushFreemap();
    }

    /** The structure on disk is sound and both in-memory copies are current. */
    ghost predicate Mounted()
      reads this, freemap
    {
      Inv(V()) && Synced() && Loaded()
    }

    /** AllocBlock on a volume with room: a block that belongs to nothing. */
    method NewBlock() returns (bid: nat)
      requires Mounted() && Room(V(), 1)
      modifies this`disk, freemap
      ensures Mounted() && NewlyAllocated(old(V()), V(), bid) && |Used()| == |old(Used())| + 1
      ensures FdsOk(old(V()), fdtable[..]) ==> FdsOk(V(), fdtable[..])
    {
      hide Inv, FdsOk, NewlyAllocated, Upto;
      ghost var v := V();
      SuperblockOf(v);
      RoomMeansFree(v);
      bid := AllocBlock();
      AllocatedAside(v, disk, bid, FreemapBlock(freemap[..]), fdtable[..]);
      assert V() == v.(disk := disk, used := v.used + {bid});
    }

    /** FreeBlock for a block that belongs to nothing any more. */
    method DropBlock(bid: nat)
      requires Mounted() && 2 < bid <= MAX_BLOCK_ID && bid !in own
      modifies this`disk, freemap
      ensures Mounted() && Agree(old(disk), disk, {1})
      ensures Used() == old(Used()) - {bid}
      ensures Dirs(V()) == old(Dirs(V())) && Files(V()) == old(Files(V())) && AllStoredKept(old(V()), V())
      ensures FdsOk(old(V()), fdtable[..]) ==> FdsOk(V(), fdtable[..])
    {
      ghost var v := V();
      FreeBlock(bid);
      Freed(v, disk, bid);
      FreemapAside(v, V(), fdtable[..]);
      assert V() == v.(disk := disk, used := v.used - {bid});
    }

    // ----- making and loading a file system

    /** A process that has opened an empty backing file. */
    constructor ()
      ensures freemap.Length == FREEMAP_WORDS && fdtable.Length == MAX_OPENED_FILES
      ensures fresh(freemap) && fresh(fdtable) && disk == []
      ensures forall i: nat :: i < fdtable.Length ==> !fdtable[i].valid
    {
      disk := [];
      sb := Superblock(0, 0, 0, 0);
      freemap := new bv32[FREEMAP_WORDS];
      fdtable := new Fd[MAX_OPENED_FILES](_ => Fd(Inode(0, 0, ""), 0, 0, 0, false));
      dirs, chain, own := [], map[], map[];
    }

    /** Makes an empty file system.  The in-memory superblock is cleared at the
        end and only loaded by the next operation. */
    method Mkfs()
      requires freemap.Length == FREEMAP_WORDS && fdtable.Length == MAX_OPENED_FILES
      modifies this, freemap, fdtable
      ensures Valid() && freemap == old(freemap)
      ensures Dirs(V()) == [] && Files(V()) == map[] && Used() == {1, 2}
      ensures forall i: nat :: i < fdtable.Length ==> !fdtable[i].valid
      ensures |disk| == LengthWith(old(disk), SFS_NBLOCKS)
    {
      sb := Superblock(SFS_MAGIC, SFS_NBLOCKS, 1, 0);
      CloseAll();
      WriteBlock(SuperBlock(sb), 0);
      ClearFreemap();
      WriteBlock(FreemapBlock(freemap[..]), sb.nblocks);
      assert |disk| == LengthWith(old(disk), SFS_NBLOCKS);
      freemap[0] := 3;
      WriteBlock(FreemapBlock(freemap[..]), 1);
      sb := Superblock(0, 0, 0, 0);
      dirs, chain, own := [], map[], map[];
      InitialUsed(freemap[..]);
      EmptyVolume(V());
    }

    method CloseAll()
      requires freemap.Length != fdtable.Length
      modifies fdtable
      ensures forall i: nat :: i < fdtable.Length ==> !fdtable[i].valid
    {
      var i := 0;
      while i < fdtable.Length
        invariant i <= fdtable.Length
        invariant forall k: nat :: k < i ==> !fdtable[k].valid
      {
        fdtable[i] := fdtable[i].(valid := false);
        i := i + 1;
      }
    }

    method ClearFreemap()
      requires freemap.Length != fdtable.Length
      modifies freemap
      ensures forall i: nat :: i < freemap.Length ==> freemap[i] == 0
      ensures fdtable[..] == old(fdtable[..])
    {
      var i := 0;
      while i < freemap.Length
        invariant i <= freemap.Length
        invariant forall k: nat :: k < i ==> freemap[k] == 0
        invariant fdtable[..] == old(fdtable[..])
      {
        freemap[i] := 0;
        i := i + 1;
      }
    }

    /** Loads the superblock and the freemap of an existing image: the volume v that
        was left in it is mounted again, with the same blocks in use. */
    method Reload(image: seq<Block>, ghost v: Vol)
      requires Inv(v) && v.disk == image
      requires At(image, 1).FreemapBlock? && |At(image, 1).words| == FREEMAP_WORDS && UsedOf(At(image, 1).words) == v.used
      requires fdtable.Length == MAX_OPENED_FILES && forall i: nat :: i < fdtable.Length ==> !fdtable[i].valid
      modifies this
      ensures fresh(freemap) && Valid() && Loaded() && V() == v
    {
      sb := At(image, 0).sb;
      var words := At(image, 1).words;
      var space := new bv32[FREEMAP_WORDS];
      var i := 0;
      while i < FREEMAP_WORDS
        invariant i <= FREEMAP_WORDS && (forall k: nat :: k < i ==> space[k] == words[k])
        invariant fdtable[..] == old(fdtable[..]) && sb == At(image, 0).sb
      {
        space[i] := words[i];
        i := i + 1;
      }
      freemap := space;
      assert freemap[..] == words;
      disk := image;
      dirs, chain, own := v.dirs, v.chain, v.own;
      assert V() == v;
    }

    /** The number of directories in the list. */
    method Lsdir() returns (n: nat)
      requires Inv(V())
      modifies this`sb
      ensures n == |Dirs(V())| && Loaded() && V() == old(V()) && (old(Valid()) ==> Valid())
    {
      LoadSuperblock();
      var dirBid := sb.firstDir;
      n := 0;
      DirIdsNonzero(V(), 0);
      while dirBid != 0
        invariant n <= |dirs| && Loaded() && dirBid == if n < |dirs| then dirs[n] else 0
        decreases |dirs| - n
      {
        assert DirLinkOk(V(), n);
        DirIdsNonzero(V(), n + 1);
        dirBid, n := disk[dirBid].dir.nextDir, n + 1;
      }
      DirIdsNonzero(V(), n);
    }

    // ----- directories

    /** The block of the directory with this name, or 0; i is its place in the list. */
    method FindDir(name: string) returns (bid: nat, ghost i: nat)
      requires Inv(V())
      modifies this`sb
      ensures Loaded()
      ensures bid == 0 ==> !HasDir(V(), name)
      ensures bid != 0 ==> DirNamed(V(), i, name) && bid == dirs[i]
    {
      LoadSuperblock();
      bid, i := sb.firstDir, 0;
      while bid != 0
        invariant i <= |dirs| && bid == (if i < |dirs| then dirs[i] else 0)
        invariant forall k: nat :: k < i ==> !DirNamed(V(), k, name)
        decreases |dirs| - i
      {
        assert DirLinkOk(V(), i);
        var dir := disk[bid].dir;
        if dir.dirName == name {
          return;
        }
        bid, i := dir.nextDir, i + 1;
      }
      DirIdsNonzero(V(), i);
    }

    method CreateFirstDir(name: string)
      requires Mounted() && FdsOk(V(), fdtable[..]) && !HasDir(V(), name) && Room(V(), 1) && NameFits(name, MAX_DIR_NAME) && dirs == []
      modifies this, freemap
      ensures Valid() && Loaded() && freemap == old(freemap) && DirCreated(old(V()), V(), name)
    {
      hide NewlyAllocated;
      var newBlock := NewBlock();
      ghost var v := V();
      WriteBlock(DirBlock(NewDir(name)), newBlock);
      sb := sb.(firstDir := newBlock);
      WriteBlock(SuperBlock(sb), 0);
      dirs, own := dirs + [newBlock], own[newBlock := DirOwner];
      assert V() == DirAdded(v, newBlock, name);
      LinkedDir(old(V()), v, newBlock, name, fdtable[..]);
    }

    method CreateDirAfter(dirBid: nat, dir: Dir, name: string)
      requires Mounted() && FdsOk(V(), fdtable[..]) && !HasDir(V(), name) && Room(V(), 1) && NameFits(name, MAX_DIR_NAME)
      requires dirs != [] && dirBid == dirs[|dirs| - 1] && At(disk, dirBid) == DirBlock(dir) && dirBid != 1
      modifies this, freemap
      ensures Valid() && Loaded() && freemap == old(freemap) && DirCreated(old(V()), V(), name)
    {
      hide Inv, FdOk, DirCreated;
      var newBid := NewBlock();
      LinkDirAfter(old(V()), newBid, dirBid, dir, name);
    }

    /** Links block newBid, which belongs to nothing, behind the last directory. */
    method LinkDirAfter(ghost v0: Vol, newBid: nat, dirBid: nat, dir: Dir, name: string)
      requires Mounted() && FdsOk(V(), fdtable[..]) && NewlyAllocated(v0, V(), newBid) && !HasDir(v0, name) && NameFits(name, MAX_DIR_NAME)
      requires dirs != [] && dirBid == dirs[|dirs| - 1] && At(disk, dirBid) == DirBlock(dir)
      modifies this`disk, this`dirs, this`own
      ensures Valid() && Loaded() && DirCreated(v0, V(), name)
    {
      hide Inv, FdOk, DirCreated, NewlyAllocated, HasDir;
      LinkedAfter(v0, V(), newBid, name, dirBid, dir, fdtable[..]);
      WriteBlock(DirBlock(dir.(nextDir := newBid)), dirBid);
      WriteBlock(DirBlock(NewDir(name)), newBid);
      dirs, own := dirs + [newBid], own[newBid := DirOwner];
    }

    /** Creates an empty directory at the end of the list, unless the name is taken. */
    method Mkdir(name: string) returns (r: int)
      requires Valid() && (!HasDir(V(), name) ==> Room(V(), 1) && NameFits(name, MAX_DIR_NAME))
      modifies this, freemap
      ensures Valid() && Loaded() && freemap == old(freemap)
      ensures old(HasDir(V(), name)) ==> r == -1 && V() == old(V())
      ensures !old(HasDir(V(), name)) ==> r == 0 && DirCreated(old(V()), V(), name)
    {
      var existing, _ := FindDir(name);
      if existing != 0 {
        return -1;
      }
      var dirBid := sb.firstDir;
      ghost var v0, i := V(), 0;
      DirIdsNonzero(v0, 0);
      if dirBid == 0 {
        CreateFirstDir(name);
      } else {
        while dirBid != 0
          invariant freemap == old(freemap)
          invariant dirBid != 0 ==> i < |v0.dirs| && dirBid == v0.dirs[i] && V() == v0 && Mounted()
          invariant dirBid == 0 ==> Valid() && Loaded() && DirCreated(v0, V(), name)
          decreases if dirBid == 0 then 0 else |v0.dirs| - i
        {
          assert DirLinkOk(v0, i);
          DirIdsNonzero(v0, i + 1);
          var dir := disk[dirBid].dir;
          if dir.nextDir == 0 {
            CreateDirAfter(dirBid, dir, name);
            dirBid := 0;
          } else {
            dirBid, i := dir.nextDir, i + 1;
          }
        }
      }
      return 0;
    }

    method UnlinkFirstDir()
      requires Mounted() && FdsOk(V(), fdtable[..]) && dirs != [] && EmptyDir(V(), dirs[0])
      modifies this, freemap
      ensures Valid() && Loaded() && freemap == old(freemap) && DirRemoved(old(V()), V(), 0)
    {
      hide EmptyDir, FdOk;
      var d := sb.firstDir;
      DirIdsNonzero(V(), 0);
      FreeBlock(d);
      sb := sb.(firstDir := 0);
      ghost var w := old(V()).(disk := disk);
      WriteBlock(SuperBlock(sb), 0);
      dirs, own := [], own - {d};
      assert V() == HeadRemoved(w);
      UnlinkedFirst(old(V()), w.disk, fdtable[..]);
    }

    method UnlinkLaterDir(prev: nat, dir: Dir, d: nat, next: nat, ghost i: nat)
      requires Mounted() && FdsOk(V(), fdtable[..]) && 0 < i < |dirs| && EmptyDir(V(), dirs[i])
      requires prev == dirs[i - 1] && At(disk, prev) == DirBlock(dir) && d == dirs[i] && next == Next(dirs, i)
      modifies this, freemap
      ensures Valid() && Loaded() && freemap == old(freemap) && DirRemoved(old(V()), V(), i)
      ensures dirs == old(dirs)[..i] + old(dirs)[i + 1..]
    {
      hide Inv, FdOk, EmptyDir, DirRemoved;
      ghost var v := V();
      SuperblockOf(v);
      DirIdsNonzero(v, i - 1);
      DirIdsNonzero(v, i);
      FreeBlock(d);
      UnlinkedBehind(v, disk, i, prev, dir, fdtable[..]);
      WriteBlock(DirBlock(dir.(nextDir := next)), prev);
      dirs, own := dirs[..i] + dirs[i + 1..], own - {d};
    }

    /** The part of rmdir that takes directory i out of the list. */
    method UnlinkDir(dirBid: nat, next: nat, ghost i: nat)
      requires Valid() && Loaded() && i < |dirs| && EmptyDir(V(), dirs[i])
      requires dirBid == dirs[i] && next == Next(dirs, i)
      modifies this, freemap
      ensures Valid() && Loaded() && freemap == old(freemap) && DirRemoved(old(V()), V(), i)
    {
      var bid := sb.firstDir;
      ghost var v, j := V(), 0;
      if bid == dirBid {
        FirstIsFirst(v, i);
        UnlinkFirstDir();
      } else {
        ghost var removed := false;
        while bid != 0
          invariant freemap == old(freemap) && Valid() && Loaded() && j <= |dirs|
          invariant !removed ==> V() == v && j < i && bid == dirs[j]
          invariant removed ==> DirRemoved(v, V(), i) && dirs == v.dirs[..i] + v.dirs[i + 1..]
          invariant removed ==> bid == if j < |dirs| then dirs[j] else 0
          decreases |v.dirs| - j
        {
          assert DirLinkOk(V(), j);
          NextIsOther(v, i, j, dirs);
          DirIdsNonzero(V(), j + 1);
          var dir := disk[bid].dir;
          if dir.nextDir == dirBid {
            UnlinkLaterDir(bid, dir, dirBid, next, i);
            dir := dir.(nextDir := next);
            removed := true;
          }
          bid, j := dir.nextDir, j + 1;
        }
        DirIdsNonzero(V(), j);
        assert removed;
      }
    }

    /** Removes the directory if it exists and holds no file. */
    method Rmdir(name: string) returns (r: int)
      requires Valid()
      modifies this, freemap
      ensures Valid() && Loaded() && freemap == old(freemap)
      ensures !old(HasDir(V(), name)) ==> r == -1
      ensures r == -1 ==> V() == old(V())
      ensures forall i: nat :: DirNamed(old(V()), i, name) ==>
        && (r == 0 <==> EmptyDir(old(V()), old(dirs)[i]))
        && (r == 0 ==> DirRemoved(old(V()), V(), i))
      ensures r == 0 || r == -1
    {
      var dirBid, i := FindDir(name);
      if dirBid == 0 {
        return -1;
      }
      NameIsUnique(V(), i, name);
      assert DirLinkOk(V(), i);
      var dir := disk[dirBid].dir;
      var k := 0;
      while k < |dir.inodes|
        invariant k <= |dir.inodes|
        invariant forall s: nat :: s < k ==> dir.inodes[s] == 0
      {
        if dir.inodes[k] != 0 {
          return -1;
        }
        k := k + 1;
      }
      assert EmptyDir(V(), dirs[i]);
      UnlinkDir(dirBid, dir.nextDir, i);
      return 0;
    }

    // ----- opening and closing files

    /** The first unused descriptor, or -1. */
    method FindFreeFd() returns (fd: int)
      ensures -1 <= fd < fdtable.Length
      ensures fd == -1 <==> forall i: nat :: i < fdtable.Length ==> fdtable[i].valid
      ensures fd >= 0 ==> !fdtable[fd].valid && forall i: nat :: i < fd ==> fdtable[i].valid
    {
      var i := 0;
      while i < fdtable.Length
        invariant i <= fdtable.Length
        invariant forall k: nat :: k < i ==> fdtable[k].valid
      {
        if !fdtable[i].valid {
          return i;
        }
        i := i + 1;
      }
      return -1;
    }

    /** The inode number of the file with this name in directory block dirBid, or 0. */
    method FindFile(dirBid: nat, dir: Dir, name: string) returns (bid: nat)
      requires Inv(V()) && IsDir(V(), dirBid) && At(disk, dirBid) == DirBlock(dir)
      ensures bid == 0 ==> forall x :: !FileAt(V(), dirBid, name, x)
      ensures bid != 0 ==> FileAt(V(), dirBid, name, bid) && At(disk, bid).InodeBlock?
    {
      var i := 0;
      while i < |dir.inodes|
        invariant i <= |dir.inodes|
        invariant forall s: nat :: s < i && dir.inodes[s] != 0 ==> FileName(V(), dir.inodes[s]) != name
      {
        if dir.inodes[i] != 0 {
          SlotIsFile(V(), dirBid, i);
          var inode := disk[dir.inodes[i]].inode;
          if inode.fileName == name {
            return dir.inodes[i];
          }
        }
        i := i + 1;
      }
      NotInSlots(V(), dirBid, name);
      return 0;
    }

    /** Stores a new, empty inode in the first free slot of directory block dirBid. */
    method CreateFile(dirBid: nat, dir: Dir, name: string) returns (bid: nat)
      requires Mounted() && FdsOk(V(), fdtable[..]) && Room(V(), 1)
      requires HasFreeSlot(V(), dirBid) && At(disk, dirBid) == DirBlock(dir) && dirBid != 1
      requires NameFits(name, MAX_FILE_NAME) && forall x :: !FileAt(V(), dirBid, name, x)
      modifies this`disk, this`chain, this`own, freemap
      ensures Mounted() && FdsOk(V(), fdtable[..]) && freemap == old(freemap)
      ensures FileCreated(old(V()), V(), dirBid, name, bid)
      ensures FirstSlotTaken(old(V()), V(), dirBid, bid)
      ensures FdOk(V(), Fd(Inode(0, 0, name), bid, dirBid, 0, true))
    {
      hide Inv, HasFreeSlot, FileCreated, NewlyAllocated;
      var slot := FindFreeSlot(dirBid, dir);
      DirIsLater(V(), dirBid);
      bid := NewBlock();
      DirAside(old(V()), V(), bid, dirBid);
      StoreInode(old(V()), dirBid, dir, slot, bid, name);
      assert SlotTaken(old(V()), V(), dirBid, slot, bid);
    }

    method FindFreeSlot(dirBid: nat, dir: Dir) returns (slot: nat)
      requires HasFreeSlot(V(), dirBid) && At(disk, dirBid) == DirBlock(dir)
      ensures slot < |dir.inodes| == DIR_SLOTS && dir.inodes[slot] == 0 && forall s: nat :: s < slot ==> dir.inodes[s] != 0
    {
      slot := 0;
      while dir.inodes[slot] != 0
        invariant slot < |dir.inodes|
        invariant forall s: nat :: s < slot ==> dir.inodes[s] != 0
        decreases |dir.inodes| - slot
      {
        slot := slot + 1;
      }
    }

    method StoreInode(ghost v0: Vol, dirBid: nat, dir: Dir, slot: nat, bid: nat, name: string)
      requires Mounted() && FdsOk(V(), fdtable[..]) && NewlyAllocated(v0, V(), bid)
      requires IsDir(V(), dirBid) && At(disk, dirBid) == DirBlock(dir) && slot < DIR_SLOTS && dir.inodes[slot] == 0
      requires NameFits(name, MAX_FILE_NAME) && forall x :: !FileAt(v0, dirBid, name, x)
      modifies this`disk, this`chain, this`own
      ensures Mounted() && FdsOk(V(), fdtable[..])
      ensures FileCreated(v0, V(), dirBid, name, bid)
      ensures InSlot(V(), dirBid, slot) == bid
      ensures FdOk(V(), Fd(Inode(0, 0, name), bid, dirBid, 0, true))
    {
      hide FileCreated;
      CreatedFile(v0, V(), dirBid, dir, slot, bid, name, fdtable[..]);
      WriteBlock(DirBlock(dir.(inodes := dir.inodes[slot := bid])), dirBid);
      WriteBlock(InodeBlock(Inode(0, 0, name)), bid);
      chain, own := chain[bid := []], own[bid := InodeOwner(dirBid, slot)];
    }

    /** Opens the file called name in the directory called dirName, creating it
        if there is none, and returns its descriptor; -1 if there is no free
        descriptor or no such directory. */
    method Open(dirName: string, name: string) returns (fd: int)
      requires Valid()
      requires forall i: nat :: DirNamed(V(), i, dirName) ==> MayOpen(V(), fdtable[..], dirs[i], name)
      modifies this, freemap, fdtable
      ensures Valid() && freemap == old(freemap)
      ensures fd == -1 <==> (forall k: nat :: k < fdtable.Length ==> old(fdtable[k].valid)) || !old(HasDir(V(), dirName))
      ensures fd == -1 ==> V() == old(V()) && fdtable[..] == old(fdtable[..])
      ensures fd != -1 ==>
        && 0 <= fd < fdtable.Length && !old(fdtable[fd].valid)
        && fdtable[..] == old(fdtable[..])[fd := fdtable[fd]]
        && fdtable[fd].valid && fdtable[fd].cur == 0
        && (forall k: nat :: k < fd ==> old(fdtable[k].valid))
        && forall i: nat :: DirNamed(old(V()), i, dirName) ==>
             Opened(old(V()), V(), old(dirs)[i], name, fdtable[fd].inodeBid)
    {
      fd := FindFreeFd();
      if fd == -1 {
        return;
      }
      var dirBid, i := FindDir(dirName);
      if dirBid == 0 {
        return -1;
      }
      NameIsUnique(V(), i, dirName);
      assert DirLinkOk(V(), i);
      DirIdsNonzero(V(), i);
      OpenInode(fd, dirBid, disk[dirBid].dir, name);
    }

    /** The part of open after the directory was found. */
    method OpenInode(fd: nat, dirBid: nat, dir: Dir, name: string)
      requires Valid() && Loaded() && fd < fdtable.Length && !fdtable[fd].valid
      requires IsDir(V(), dirBid) && At(disk, dirBid) == DirBlock(dir) && dirBid != 1
      requires MayOpen(V(), fdtable[..], dirBid, name)
      modifies this`disk, this`chain, this`own, freemap, fdtable
      ensures Valid() && freemap == old(freemap)
      ensures fdtable[..] == old(fdtable[..])[fd := fdtable[fd]] && fdtable[fd].valid && fdtable[fd].cur == 0
      ensures Opened(old(V()), V(), dirBid, name, fdtable[fd].inodeBid)
    {
      hide Inv, FileCreated;
      var inodeBid := FindFile(dirBid, dir, name);
      if inodeBid == 0 {
        assert !HasFile(V(), dirBid, name);
        inodeBid := CreateFile(dirBid, dir, name);
        NewFile(old(V()), V(), fdtable[..], dirBid, name, inodeBid);
        FdOpened(V(), fdtable[..], fd, Fd(Inode(0, 0, name), inodeBid, dirBid, 0, true));
        fdtable[fd] := Fd(Inode(0, 0, name), inodeBid, dirBid, 0, true);
      } else {
        assert HasFile(V(), dirBid, name);
        FdOpened(V(), fdtable[..], fd, Fd(disk[inodeBid].inode, inodeBid, dirBid, 0, true));
        fdtable[fd] := Fd(disk[inodeBid].inode, inodeBid, dirBid, 0, true);
      }
    }

    /** Closes a descriptor. */
    method Close(fd: nat)
      requires Valid() && fd < fdtable.Length
      modifies fdtable
      ensures Valid()
      ensures fdtable[..] == old(fdtable[..])[fd := old(fdtable[fd]).(valid := false)]
    {
      fdtable[fd] := fdtable[fd].(valid := false);
    }

    /** Removes the open file: frees its inode and its frames and closes it. */
    method Remove(fd: nat)
      requires Valid() && fd < fdtable.Length && fdtable[fd].valid
      modifies this, freemap, fdtable
      ensures Valid() && freemap == old(freemap)
      ensures old(fdtable[fd].inodeBid) in old(chain)
      ensures FileRemoved(old(V()), V(), old(fdtable[fd].inodeBid))
      ensures fdtable[..] == old(fdtable[..])[fd := old(fdtable[fd]).(valid := false)]
    {
      hide Inv, AllStoredKept, Files;
      ghost var v, fds := V(), fdtable[..];
      ghost var x := fdtable[fd].inodeBid;
      var dirBid, inodeBid := fdtable[fd].dirBid, fdtable[fd].inodeBid;
      assert FdOk(v, fds[fd]);
      ClearSlot(fd);
      ghost var w := V();
      assert At(disk, inodeBid).InodeBlock?;
      var inode := disk[inodeBid].inode;
      FreeFrames(inode.firstFrame, v, w, x);
      ghost var w1 := V();
      DropBlock(inodeBid);
      StoredAcross(v, w, w1, V());
      FreemapAside(w, V(), fds[fd := fds[fd].(valid := false)]);
      fdtable[fd] := fdtable[fd].(valid := false);
    }

    /** The part of remove that clears the directory slot of the file. */
    method ClearSlot(fd: nat)
      requires Valid() && fd < fdtable.Length && fdtable[fd].valid
      modifies this`disk, this`chain, this`own
      ensures Mounted()
      ensures var x := fdtable[fd].inodeBid;
        && x in old(chain) && x in old(own) && old(own)[x].InodeOwner?
        && old(own)[x].slot < |DirIn(old(disk), old(own)[x].dir).inodes|
        && V() == InodeRemoved(old(V()), x)
        && At(disk, x) == At(old(disk), x) && At(disk, x).InodeBlock? && At(disk, x).inode.firstFrame == First(old(chain)[x])
        && x !in own && (forall f :: f in old(chain)[x] ==> f !in own) && 2 < x <= MAX_BLOCK_ID
        && Files(V()) == old(Files(V())) - {x} && Dirs(V()) == old(Dirs(V())) && AllStoredKept(old(V()), V())
        && FdsOk(V(), fdtable[..][fd := fdtable[fd].(valid := false)])
    {
      hide FdsOk, Files, AllStoredKept;
      ghost var v, x := V(), fdtable[fd].inodeBid;
      SlotCleared(v, x, fd, fdtable[..]);
      var dirBid, inodeBid := fdtable[fd].dirBid, fdtable[fd].inodeBid;
      var dir := disk[dirBid].dir;
      var i := 0;
      while dir.inodes[i] != inodeBid
        invariant i <= own[x].slot
        decreases |dir.inodes| - i
      {
        i := i + 1;
      }
      assert i == own[x].slot;
      dir := dir.(inodes := dir.inodes[i := 0]);
      WriteBlock(DirBlock(dir), dirBid);
      chain, own := chain - {x}, own - BlocksOf(v, x);
      assert V() == InodeRemoved(v, x);
      assert NodeOk(v, x);
    }

    /** The part of remove that walks the frame chain and frees every frame. */
    method FreeFrames(first: nat, ghost v: Vol, ghost w: Vol, ghost x: nat)
      requires Mounted() && V() == w && Inv(v) && x in v.chain && x in v.own && v.own[x].InodeOwner?
      requires first == First(v.chain[x]) && Agree(v.disk, disk, {v.own[x].dir})
      requires forall f :: f in v.chain[x] ==> f !in own
      modifies this`disk, freemap
      ensures Mounted() && Agree(w.disk, disk, {1})
      ensures Used() == w.used - SetOf(v.chain[x])
      ensures Dirs(V()) == Dirs(w) && Files(V()) == Files(w) && AllStoredKept(w, V()) && chain == w.chain
    {
      hide Inv, FdOk, Files;
      var frameBid := first;
      ghost var k, frames := 0, v.chain[x];
      if frames != [] {
        FrameLink(v, x, 0);
      }
      while frameBid != 0
        invariant k <= |frames| && frameBid == if k < |frames| then frames[k] else 0
        invariant Mounted() && Agree(w.disk, disk, {1})
        invariant Used() == w.used - SetOf(frames[..k])
        invariant Dirs(V()) == Dirs(w) && Files(V()) == Files(w) && AllStoredKept(w, V())
        decreases |frames| - k
      {
        FrameLink(v, x, k);
        assert At(disk, frameBid) == At(w.disk, frameBid) == At(v.disk, frameBid);
        var frame := disk[frameBid].frame;
        ghost var w1 := V();
        DropBlock(frameBid);
        AllTwice(w, w1, V());
        frameBid, k := frame.next, k + 1;
        assert frames[..k] == frames[..k - 1] + [frames[k - 1]];
      }
      if k < |frames| {
        FrameLink(v, x, k);
      }
      assert frames[..k] == frames;
    }

    // ----- growing a file

    /** AllocBlock, seen on a volume w whose blocks need not all be on disk yet. */
    method NewBlockFor(ghost w: Vol) returns (bid: nat, ghost w': Vol)
      requires freemap.Length == FREEMAP_WORDS && sb.nfreemapBlocks == 1
      requires Inv(w) && w.used == Used() && Room(w, 1)
      modifies this`disk, freemap
      ensures NewlyAllocated(w, w', bid) && |w'.used| == |w.used| + 1 && w'.used == Used()
      ensures w'.disk == Put(w.disk, 1, FreemapBlock(freemap[..]))
      ensures disk == Put(old(disk), 1, FreemapBlock(freemap[..]))
    {
      RoomMeansFree(w);
      bid := AllocBlock();
      var fm := FreemapBlock(freemap[..]);
      w' := w.(disk := Put(w.disk, 1, fm), used := w.used + {bid});
      Allocated(w, w'.disk, bid);
    }

    /** Takes n blocks. */
    method NewBlocksFor(n: nat, ghost w: Vol, ghost s: set<nat>) returns (bids: seq<nat>, ghost w': Vol)
      requires freemap.Length == FREEMAP_WORDS && sb.nfreemapBlocks == 1 && At(disk, 1) == FreemapBlock(freemap[..])
      requires Inv(w) && w.used == Used() && Room(w, n) && Differ(w.disk, disk, s)
      modifies this`disk, freemap
      ensures |bids| == n
      ensures ManyAllocated(w, w', bids) && w'.used == Used()
      ensures Differ(w'.disk, disk, s) && Agree(old(disk), disk, {1})
      ensures At(disk, 1) == FreemapBlock(freemap[..])
    {
      NoneAllocated(w);
      bids, w' := TakeBlocks(n, w, s);
    }

    method TakeBlocks(n: nat, ghost w: Vol, ghost s: set<nat>) returns (bids: seq<nat>, ghost w': Vol)
      requires Taking(w, w, [], s, disk) && Room(w, n)
      modifies this`disk, freemap
      ensures |bids| == n && Taking(w, w', bids, s, old(disk))
    {
      hide Inv;
      bids, w' := [], w;
      while |bids| < n
        invariant |bids| <= n && freemap == old(freemap)
        invariant Taking(w, w', bids, s, old(disk))
      {
        var bid;
        bid, w' := TakeNext(w, w', bids, s, old(disk));
        bids := bids + [bid];
      }
    }

    /** The state of TakeBlocks after taking the blocks in bids; d0 is the disk
        before the first. */
    ghost predicate Taking(w: Vol, w': Vol, bids: seq<nat>, s: set<nat>, d0: seq<Block>)
      reads this, freemap
    {
      && freemap.Length == FREEMAP_WORDS && sb.nfreemapBlocks == 1
      && ManyAllocated(w, w', bids) && w'.used == Used()
      && Differ(w'.disk, disk, s) && Agree(d0, disk, {1})
      && At(disk, 1) == FreemapBlock(freemap[..])
    }

    method TakeNext(ghost w: Vol, ghost w1: Vol, ghost bids: seq<nat>, ghost s: set<nat>, ghost d0: seq<Block>)
      returns (bid: nat, ghost w': Vol)
      requires Taking(w, w1, bids, s, d0) && Room(w1, 1)
      modifies this`disk, freemap
      ensures Taking(w, w', bids + [bid], s, d0)
    {
      ghost var d := disk;
      bid, w' := NewBlockFor(w1);
      OneMoreAllocated(w, w1, bids, w', bid);
      DifferPut(w1.disk, d, s, 1, FreemapBlock(freemap[..]));
      AgreeTransitive(d0, d, disk, {1}, {1});
      assert {1} + {1} == {1};
    }

    /** The in-memory freemap is current and marks what w says is used. */
    ghost predicate Tracks(w: Vol)
      reads this, freemap
    {
      && freemap.Length == FREEMAP_WORDS && sb.nfreemapBlocks == 1
      && At(disk, 1) == FreemapBlock(freemap[..])
      && w.used == Used()
    }

    method WriteFrame(frame: Frame, f: nat, ghost w: Vol)
      requires Tracks(w) && f != 1
      modifies this`disk
      ensures Tracks(w) && disk == Put(old(disk), f, FrameBlock(frame))
    {
      WriteBlock(FrameBlock(frame), f);
    }

    /** Allocates the content of the first frame of a file, to be written to block f. */
    method FillFirstFrame(f: nat, ghost v: Vol, ghost w: Vol, ghost x: nat, ghost fds: seq<Fd>, ghost bids: seq<nat>)
      returns (frame: Frame, ghost w2: Vol)
      requires Tracks(w) && Resizing(v, w, disk, x, fds, bids, 0) && Room(w, FRAME_COUNT)
      requires bids != [] && f == bids[0] && w.chain[x] == []
      modifies this`disk, freemap
      ensures Tracks(w2) && Resizing(v, w2, Put(disk, f, FrameBlock(frame)), x, fds, bids, 1)
      ensures LinkedTo(w, w2, x, f, frame) && f != 1
    {
      hide Inv, FdsOk, ManyAllocated, Linked, LinkedTo, Reserved, IsOpen, SameIds, StoredKept, LinkedInOrder, Differ;
      var content, w1 := NewBlocksFor(FRAME_COUNT, w, {x});
      frame := Frame(0, content);
      FirstFrameLinked(v, w, w1, old(disk), disk, x, fds, bids, frame.content);
      w2 := Linked(w1, x, f, frame.content);
    }

    /** Links block f behind the last frame and allocates the content of the frame
        to be written there. */
    method FillNextFrame(frameBid: nat, last: Frame, f: nat,
                         ghost v: Vol, ghost w: Vol, ghost x: nat, ghost fds: seq<Fd>, ghost bids: seq<nat>, ghost j: nat)
      returns (frame: Frame, ghost w2: Vol)
      requires Tracks(w) && Resizing(v, w, disk, x, fds, bids, j) && Room(w, FRAME_COUNT)
      requires j < |bids| && f == bids[j] && w.chain[x] != [] && frameBid == LastFrame(x, w.chain[x])
      requires At(w.disk, frameBid) == FrameBlock(last)
      modifies this`disk, freemap
      ensures Tracks(w2) && Resizing(v, w2, Put(disk, f, FrameBlock(frame)), x, fds, bids, j + 1)
      ensures LinkedTo(w, w2, x, f, frame) && f != 1
    {
      hide Inv, FdsOk, ManyAllocated, Linked, LinkedTo, Reserved, IsOpen, SameIds, StoredKept, LinkedInOrder, Agree;
      FrameLink(w, x, |w.chain[x]| - 1);
      WriteBlock(FrameBlock(last.(next := f)), frameBid);
      DifferAfter(w.disk, old(disk), x, frameBid, FrameBlock(last.(next := f)));
      var content, w1 := NewBlocksFor(FRAME_COUNT, w, {x, frameBid});
      frame := Frame(0, content);
      NextFrameLinked(v, w, w1, old(disk), disk, x, fds, bids, j, frame.content, last);
      w2 := Linked(w1, x, f, frame.content);
    }

    method LinkFirstFrame(f: nat, ghost v: Vol, ghost w: Vol, ghost x: nat, ghost fds: seq<Fd>, ghost bids: seq<nat>)
      returns (frame: Frame, ghost w2: Vol)
      requires Tracks(w) && Resizing(v, w, disk, x, fds, bids, 0) && Room(w, FRAME_COUNT)
      requires bids != [] && f == bids[0] && w.chain[x] == []
      modifies this`disk, freemap
      ensures Tracks(w2) && Resizing(v, w2, disk, x, fds, bids, 1) && LinkedTo(w, w2, x, f, frame)
    {
      frame, w2 := FillFirstFrame(f, v, w, x, fds, bids);
      WriteFrame(frame, f, w2);
    }

    method LinkNextFrame(frameBid: nat, last: Frame, f: nat,
                         ghost v: Vol, ghost w: Vol, ghost x: nat, ghost fds: seq<Fd>, ghost bids: seq<nat>, ghost j: nat)
      returns (frame: Frame, ghost w2: Vol)
      requires Tracks(w) && Resizing(v, w, disk, x, fds, bids, j) && Room(w, FRAME_COUNT)
      requires j < |bids| && f == bids[j] && w.chain[x] != [] && frameBid == LastFrame(x, w.chain[x])
      requires At(w.disk, frameBid) == FrameBlock(last)
      modifies this`disk, freemap
      ensures Tracks(w2) && Resizing(v, w2, disk, x, fds, bids, j + 1) && LinkedTo(w, w2, x, f, frame)
    {
      frame, w2 := FillNextFrame(frameBid, last, f, v, w, x, fds, bids, j);
      WriteFrame(frame, f, w2);
    }

    /** Walks the frame chain to its last frame. */
    method FindLastFrame(first: nat, ghost w: Vol, ghost x: nat) returns (frameBid: nat, frame: Frame)
      requires Inv(w) && x in w.chain && w.chain[x] != [] && first == First(w.chain[x]) && Differ(w.disk, disk, {x})
      ensures frameBid == LastFrame(x, w.chain[x]) && At(w.disk, frameBid) == FrameBlock(frame)
    {
      ghost var k, frames := 0, w.chain[x];
      ChainFacts(w, x);
      FrameLink(w, x, 0);
      frameBid := first;
      assert At(disk, frameBid) == At(w.disk, frameBid);
      frame := disk[frameBid].frame;
      while frame.next != 0
        invariant k < |frames| && frameBid == frames[k] && At(w.disk, frameBid) == FrameBlock(frame)
        decreases |frames| - k
      {
        FrameLink(w, x, k);
        frameBid, k := frame.next, k + 1;
        FrameLink(w, x, k);
        assert At(disk, frameBid) == At(w.disk, frameBid);
        frame := disk[frameBid].frame;
      }
      FrameLink(w, x, k);
    }

    /** Fills, links and writes the frames bids[start..], in this order, behind
        the last frame. */
    method LinkFrames(bids: seq<nat>, start: nat, last: nat, lastFrame: Frame,
                      ghost v: Vol, ghost w: Vol, ghost x: nat, ghost fds: seq<Fd>)
      returns (ghost w2: Vol)
      requires Tracks(w) && start <= |bids| && Resizing(v, w, disk, x, fds, bids, start)
      requires |v.used| + (FRAME_COUNT + 1) * |bids| <= MAX_BLOCK_ID
      requires x in w.chain && w.chain[x] != [] && last == LastFrame(x, w.chain[x]) && At(w.disk, last) == FrameBlock(lastFrame)
      modifies this`disk, freemap
      ensures Tracks(w2) && Resizing(v, w2, disk, x, fds, bids, |bids|)
      ensures w2.chain[x] != [] && First(w2.chain[x]) == First(w.chain[x])
    {
      hide Inv, FdsOk, Grown, Differ, LinkedInOrder, Reserved, IsOpen, SameIds;
      var j, frameBid, frame := start, last, lastFrame;
      w2 := w;
      while j < |bids|
        invariant j <= |bids| && x in w.chain && x in w2.chain
        invariant Tracks(w2) && Resizing(v, w2, disk, x, fds, bids, j)
        invariant w2.chain[x] != [] && First(w2.chain[x]) == First(w.chain[x])
        invariant frameBid == LastFrame(x, w2.chain[x]) && At(w2.disk, frameBid) == FrameBlock(frame)
      {
        var f := bids[j];
        frame, w2 := LinkNextFrame(frameBid, frame, f, v, w2, x, fds, bids, j);
        frameBid, j := f, j + 1;
      }
    }

    /** The frames in bids are linked behind the chain that starts at first; the
        head of the chain is returned. */
    method LinkAllFrames(bids: seq<nat>, first: nat, ghost v: Vol, ghost w: Vol, ghost x: nat, ghost fds: seq<Fd>)
      returns (head: nat, ghost w2: Vol)
      requires Tracks(w) && Resizing(v, w, disk, x, fds, bids, 0)
      requires |bids| > 0 && |v.used| + (FRAME_COUNT + 1) * |bids| <= MAX_BLOCK_ID
      requires first == First(w.chain[x])
      modifies this`disk, freemap
      ensures Tracks(w2) && Resizing(v, w2, disk, x, fds, bids, |bids|) && head == First(w2.chain[x])
    {
      hide Inv, LinkedInOrder, FdsOk, Differ;
      FirstIsZero(w, x);
      var frame;
      if first == 0 {
        head := bids[0];
        frame, w2 := LinkFirstFrame(head, v, w, x, fds, bids);
        w2 := LinkFrames(bids, 1, head, frame, v, w2, x, fds);
      } else {
        head := first;
        var frameBid;
        frameBid, frame := FindLastFrame(first, w, x);
        w2 := LinkFrames(bids, 0, frameBid, frame, v, w, x, fds);
      }
    }

    /** Gives the open file whole frames until it can hold newSize bytes. */
    method ResizeFile(fd: nat, newSize: nat)
      requires Valid() && fd < fdtable.Length && fdtable[fd].valid
      requires fdtable[fd].inodeBid in chain
      requires Room(V(), (FRAME_COUNT + 1) * Missing(|chain[fdtable[fd].inodeBid]|, newSize))
      modifies this, freemap, fdtable
      ensures Valid() && freemap == old(freemap)
      ensures var x, n := old(fdtable[fd].inodeBid), Missing(|old(chain)[old(fdtable[fd].inodeBid)]|, newSize);
        Grown(old(V()), V(), x, n) && InOrder(old(V()), V(), x) && |Used()| == |old(Used())| + (FRAME_COUNT + 1) * n
      ensures Fitted(old(V()), V(), old(fdtable[fd].inodeBid), newSize)
      ensures fdtable[..] == old(fdtable[..])[fd := old(fdtable[fd]).(inode := fdtable[fd].inode)]
    {
      hide Inv, InOrder, StoredKept, FdOk;
      FdFacts(V(), fdtable[..], fd);
      GrownNothing(V(), fdtable[fd].inodeBid);
      var frameSize := BLOCK_SIZE * FRAME_COUNT;
      var oldSize := fdtable[fd].inode.size;
      var oldNframe := (oldSize + frameSize - 1) / frameSize;
      var newNframe := (newSize + frameSize - 1) / frameSize;
      if newNframe > oldNframe {
        AddFrames(fd, newNframe - oldNframe);
      }
    }

    /** Allocates the given number of frames and links them to the open file. */
    method AddFrames(fd: nat, needed: nat)
      requires Valid() && fd < fdtable.Length && fdtable[fd].valid
      requires needed > 0 && Room(V(), (FRAME_COUNT + 1) * needed)
      modifies this, freemap, fdtable
      ensures Valid() && freemap == old(freemap)
      ensures old(fdtable[fd].inodeBid) in old(chain)
      ensures Grown(old(V()), V(), old(fdtable[fd].inodeBid), needed) && InOrder(old(V()), V(), old(fdtable[fd].inodeBid))
      ensures |Used()| == |old(Used())| + (FRAME_COUNT + 1) * needed
      ensures fdtable[..] == old(fdtable[..])[fd := old(fdtable[fd]).(inode := fdtable[fd].inode)]
    {
      hide Inv, InOrder, StoredKept;
      ghost var x := fdtable[fd].inodeBid;
      var head;
      ghost var w;
      head, w := LinkNewFrames(fd, needed);
      var inode := fdtable[fd].inode;
      inode := inode.(firstFrame := head, size := inode.size + BLOCK_SIZE * FRAME_COUNT * needed);
      StoreGrownInode(fd, inode, w, x, fdtable[..][fd := fdtable[fd].(valid := false)]);
    }

    /** The part of a resize before the inode is written; w is the volume with
        the inode already brought up to date. */
    method LinkNewFrames(fd: nat, needed: nat) returns (head: nat, ghost w: Vol)
      requires Valid() && fd < fdtable.Length && fdtable[fd].valid
      requires needed > 0 && Room(V(), (FRAME_COUNT + 1) * needed)
      modifies this`disk, freemap
      ensures fdtable[fd].inodeBid in chain && Loaded() && Tracks(w)
      ensures Resized(old(V()), w, disk, fdtable[..], fd, needed)
      ensures fdtable[fd].inode.(firstFrame := head, size := fdtable[fd].inode.size + FRAME_SIZE * needed)
           == Inode(FRAME_SIZE * |w.chain[fdtable[fd].inodeBid]|, First(w.chain[fdtable[fd].inodeBid]), FileName(w, fdtable[fd].inodeBid))
    {
      hide NodeOk, Grown, Reserved, Differ, IsOpen;
      ghost var v, fds := V(), fdtable[..];
      var newFrameBids;
      newFrameBids, w := ReserveFrames(fd, needed);
      head, w := LinkReserved(fd, newFrameBids, v, w, fds);
    }

    method ReserveFrames(fd: nat, needed: nat) returns (bids: seq<nat>, ghost w: Vol)
      requires Valid() && fd < fdtable.Length && fdtable[fd].valid && Room(V(), (FRAME_COUNT + 1) * needed)
      modifies this`disk, freemap
      ensures Tracks(w) && |bids| == needed && At(disk, 0) == At(old(disk), 0)
      ensures Resizing(old(V()), w, disk, fdtable[fd].inodeBid, fdtable[..][fd := fdtable[fd].(valid := false)], bids, 0)
      ensures w.chain == chain
    {
      hide FdOk, ManyAllocated, Resizing;
      ghost var v, fds := V(), fdtable[..];
      FdFacts(v, fds, fd);
      bids, w := NewBlocksFor(needed, v, {});
      ResizeStart(v, w, fds[fd].inodeBid, fd, fds, bids);
      SameEverywhere(w.disk, disk);
    }

    method LinkReserved(fd: nat, bids: seq<nat>, ghost v: Vol, ghost w0: Vol, ghost fds: seq<Fd>) returns (head: nat, ghost w: Vol)
      requires Inv(v) && FdsOk(v, fds) && fds == fdtable[..] && fd < |fds| && fds[fd].valid
      requires Tracks(w0) && Resizing(v, w0, disk, fds[fd].inodeBid, fds[fd := fds[fd].(valid := false)], bids, 0)
      requires bids != [] && |v.used| + (FRAME_COUNT + 1) * |bids| <= MAX_BLOCK_ID && w0.chain == v.chain
      modifies this`disk, freemap
      ensures Tracks(w) && Resized(v, w, disk, fds, fd, |bids|) && At(disk, 0) == At(v.disk, 0)
      ensures fds[fd].inode.(firstFrame := head, size := fds[fd].inode.size + FRAME_SIZE * |bids|)
           == Inode(FRAME_SIZE * |w.chain[fds[fd].inodeBid]|, First(w.chain[fds[fd].inodeBid]), FileName(w, fds[fd].inodeBid))
    {
      FdFacts(v, fds, fd);
      head, w := LinkAllFrames(bids, fdtable[fd].inode.firstFrame, v, w0, fds[fd].inodeBid, fds[fd := fds[fd].(valid := false)]);
      ResizingEnds(v, w, disk, fds, fd, |bids|, bids);
    }

    /** The end of a resize: the descriptor and the disk get the new inode. */
    method StoreGrownInode(fd: nat, inode: Inode, ghost w: Vol, ghost x: nat, ghost fds: seq<Fd>)
      requires Tracks(w) && Inv(w) && x in w.chain && Differ(w.disk, disk, {x}) && w.dirs == dirs
      requires fd < fdtable.Length && fdtable[fd].valid && fdtable[fd].inodeBid == x && fdtable[fd].dirBid == DirOf(w, x)
      requires inode == Inode(FRAME_SIZE * |w.chain[x]|, First(w.chain[x]), FileName(w, x))
      requires fds == fdtable[..][fd := fdtable[fd].(valid := false)] && FdsOk(w, fds) && !IsOpen(fds, x)
      requires Loaded() && x > 2
      modifies this`disk, this`chain, this`own, fdtable
      ensures Valid() && V() == w
      ensures fdtable[..] == old(fdtable[..])[fd := old(fdtable[fd]).(inode := inode)]
    {
      ResizeDone(w, disk, x);
      FdOpened(w, fds, fd, fdtable[fd].(inode := inode));
      fdtable[fd] := fdtable[fd].(inode := inode);
      assert fdtable[..] == fds[fd := fdtable[fd]];
      WriteBlock(InodeBlock(inode), fdtable[fd].inodeBid);
      chain, own := w.chain, w.own;
    }

    // ----- reading and writing

    /** A raw read of block bid into tmp. */
    method ReadBlock(tmp: seq<Byte>, bid: nat) returns (r: seq<Byte>)
      requires |tmp| == BLOCK_SIZE
      ensures |r| == BLOCK_SIZE && r == RawRead(disk, bid, tmp)
      ensures bid < |disk| ==> r == BlockBytes(disk, bid)
      ensures bid >= |disk| ==> r == tmp
    {
      r := tmp;
      if bid < |disk| {
        r := Raw(disk[bid]);
      }
    }

    /** Stores in bids the ids of the content blocks that hold bytes
        [cur, cur + length] of the open file. */
    method GetFileContent(bids: array<nat>, fd: nat, cur: nat, length: nat) returns (n: nat)
      requires Inv(V()) && FdsOk(V(), fdtable[..]) && fd < fdtable.Length && fdtable[fd].valid
      requires cur + length < fdtable[fd].inode.size
      requires bids.Length > (cur + length) / BLOCK_SIZE - cur / BLOCK_SIZE && bids as object != freemap && bids as object != fdtable
      modifies bids
      ensures freemap[..] == old(freemap[..]) && fdtable[..] == old(fdtable[..])
      ensures n == (cur + length) / BLOCK_SIZE - cur / BLOCK_SIZE + 1
      ensures fdtable[fd].inodeBid in chain
      ensures forall k: nat :: k < n ==> bids[k] == IdAt(disk, chain[fdtable[fd].inodeBid], cur / BLOCK_SIZE + k)
      ensures forall k: nat :: n <= k < bids.Length ==> bids[k] == old(bids[k])
    {
      hide Inv, FdsOk;
      ghost var x := fdtable[fd].inodeBid;
      FdFacts(V(), fdtable[..], fd);
      ghost var frames := chain[x];
      var start := cur / BLOCK_SIZE;
      var end := (cur + length) / BLOCK_SIZE;
      var i, j, frameNumber := 0, 0, 0;
      var frame := AsFrame(At(disk, fdtable[fd].inode.firstFrame));
      while i <= end
        invariant i <= end + 1 && frameNumber == i / FRAME_COUNT && j == if i < start then 0 else i - start
        invariant freemap[..] == old(freemap[..]) && fdtable[..] == old(fdtable[..])
        invariant frameNumber < |frames| ==> frame == AsFrame(At(disk, frames[frameNumber]))
        invariant forall k: nat :: k < j ==> bids[k] == IdAt(disk, frames, start + k)
        invariant forall k: nat :: j <= k < bids.Length ==> bids[k] == old(bids[k])
      {
        FrameLoaded(V(), x, frameNumber);
        if i < start {
          i := i + 1;
        } else {
          bids[j] := frame.content[i % FRAME_COUNT];
          j := j + 1;
          i := i + 1;
        }
        if i / FRAME_COUNT > frameNumber {
          frame := AsFrame(At(disk, frame.next));
          frameNumber := frameNumber + 1;
        }
      }
      n := end - start + 1;
    }

    /** The ids of the content blocks that a transfer from the cursor will use. */
    method ContentIds(fd: nat, length: nat) returns (bids: array<nat>)
      requires Inv(V()) && FdsOk(V(), fdtable[..]) && fd < fdtable.Length && fdtable[fd].valid && fdtable[fd].inodeBid in chain
      requires fdtable[fd].cur < BLOCK_SIZE && fdtable[fd].cur + length < FRAME_SIZE * |chain[fdtable[fd].inodeBid]|
      ensures fresh(bids) && bids.Length > (fdtable[fd].cur + length) / BLOCK_SIZE
      ensures forall k: nat :: k <= (fdtable[fd].cur + length) / BLOCK_SIZE ==>
        bids[k] == IdAt(disk, chain[fdtable[fd].inodeBid], k)
    {
      FdFacts(V(), fdtable[..], fd);
      bids := new nat[fdtable[fd].inode.size / BLOCK_SIZE];
      var n := GetFileContent(bids, fd, fdtable[fd].cur, length);
    }

    /** The transfer loop of write: bytes of buf go to the file from cur on. */
    method WriteBlocks(bids: array<nat>, buf: seq<Byte>, from: nat, length: nat, ghost v0: Vol, ghost x: nat) returns (cur: nat)
      requires V() == v0 && Inv(v0) && x in chain
      requires length == |buf| && from + length <= FRAME_SIZE * |chain[x]| && from < BLOCK_SIZE
      requires bids.Length > (from + length) / BLOCK_SIZE
      requires forall k: nat :: k <= (from + length) / BLOCK_SIZE ==> bids[k] == IdAt(disk, chain[x], k)
      modifies this`disk
      ensures cur == from + length && freemap[..] == old(freemap[..])
      ensures PartWritten(v0, V(), x, buf, from, cur)
    {
      hide Inv, PartWritten;
      cur := from;
      var space := new Byte[BLOCK_SIZE];
      var tmp := space[..];
      var remaining, offset, bytesCompleted := length, from % BLOCK_SIZE, 0;
      ghost var n := 0;
      NoContentYet(v0, x, buf, from);
      while remaining != 0
        invariant 0 <= remaining && bytesCompleted + remaining == length && cur == from + bytesCompleted
        invariant 0 <= offset < BLOCK_SIZE && |tmp| == BLOCK_SIZE && freemap[..] == old(freemap[..])
        invariant remaining != 0 ==> cur == BLOCK_SIZE * n + offset && (cur == from || offset == 0)
        invariant PartWritten(v0, V(), x, buf, from, cur)
      {
        var toCopy;
        var blockId := cur / BLOCK_SIZE;
        assert blockId == n;
        toCopy, tmp := WriteRound(bids[blockId], tmp, blockId, offset, buf, from, remaining, v0, x);
        bytesCompleted := bytesCompleted + toCopy;
        remaining := remaining - toCopy;
        n := n + 1;
        offset := 0;
        cur := cur + toCopy;
      }
    }

    /** One round of the loop: a block that is only partly overwritten is read first. */
    method WriteRound(bid: nat, tmp0: seq<Byte>, n: nat, offset: nat, buf: seq<Byte>, from: nat, remaining: nat,
                      ghost v0: Vol, ghost x: nat)
      returns (toCopy: nat, tmp: seq<Byte>)
      requires x in v0.chain && PartWritten(v0, V(), x, buf, from, BLOCK_SIZE * n + offset)
      requires |tmp0| == BLOCK_SIZE && remaining > 0
      requires BLOCK_SIZE * n + offset + remaining == from + |buf| <= FRAME_SIZE * |v0.chain[x]|
      requires offset < BLOCK_SIZE && (offset == 0 || BLOCK_SIZE * n + offset == from)
      requires bid == IdAt(v0.disk, v0.chain[x], n)
      modifies this`disk
      ensures |tmp| == BLOCK_SIZE && toCopy == ToCopy(remaining, offset) && freemap[..] == old(freemap[..])
      ensures PartWritten(v0, V(), x, buf, from, BLOCK_SIZE * n + offset + toCopy)
    {
      toCopy := ToCopy(remaining, offset);
      tmp := tmp0;
      if toCopy != BLOCK_SIZE {
        tmp := ReadBlock(tmp, bid);
      }
      assert Round(V(), x, buf, from, n, offset, toCopy, tmp);
      tmp := WriteChunk(bid, tmp, n, offset, buf, from, toCopy, v0, x);
    }

    /** toCopy bytes of buf are laid over tmp, and that is written. */
    method WriteChunk(bid: nat, tmp: seq<Byte>, n: nat, offset: nat, buf: seq<Byte>, from: nat, toCopy: nat,
                      ghost v0: Vol, ghost x: nat)
      returns (bytes: seq<Byte>)
      requires PartWritten(v0, V(), x, buf, from, BLOCK_SIZE * n + offset)
      requires Round(V(), x, buf, from, n, offset, toCopy, tmp) && bid == IdAt(disk, chain[x], n)
      modifies this`disk
      ensures |bytes| == BLOCK_SIZE && freemap[..] == old(freemap[..])
      ensures PartWritten(v0, V(), x, buf, from, BLOCK_SIZE * n + offset + toCopy)
    {
      hide PartWritten;
      ghost var v := V();
      SpliceStep(v0, v, x, buf, from, n, offset, toCopy, tmp);
      bytes := Overlay(tmp, offset, Chunk(buf, from, BLOCK_SIZE * n + offset, toCopy));
      WriteBlock(DataBlock(bytes), bid);
      assert V() == Overwritten(v, x, n, bytes);
    }

    /** The number of frames that writing length bytes adds to the open file. */
    ghost function AddedFrames(fd: nat, length: nat): nat
      requires fd < fdtable.Length && fdtable[fd].inodeBid in chain
      reads this, fdtable
    {
      Missing(|chain[fdtable[fd].inodeBid]|, fdtable[fd].cur + length)
    }

    /** Writes buf to the open file at its cursor, which stands in the first block,
        growing the file as needed, and advances the cursor. */
    method Write(fd: nat, buf: seq<Byte>, length: nat) returns (written: nat)
      requires Valid() && fd < fdtable.Length && fdtable[fd].valid && length == |buf|
      requires fdtable[fd].inodeBid in chain && fdtable[fd].cur < BLOCK_SIZE
      requires fdtable[fd].cur + length < FRAME_SIZE * (|chain[fdtable[fd].inodeBid]| + AddedFrames(fd, length))
      requires Room(V(), (FRAME_COUNT + 1) * AddedFrames(fd, length))
      modifies this, freemap, fdtable
      ensures Valid() && freemap == old(freemap) && written == length
      ensures FileWritten(old(V()), V(), old(fdtable[fd].inodeBid), old(AddedFrames(fd, length)), buf, old(fdtable[fd].cur))
      ensures |Used()| == |old(Used())| + (FRAME_COUNT + 1) * old(AddedFrames(fd, length))
      ensures Fitted(old(V()), V(), old(fdtable[fd].inodeBid), old(fdtable[fd].cur) + length)
      ensures fdtable[..] == old(fdtable[..])[fd := old(fdtable[fd]).(inode := fdtable[fd].inode, cur := old(fdtable[fd].cur) + length)]
    {
      hide Inv, FdsOk, Grown, FileWritten, InOrder;
      ghost var v, fds, n := V(), fdtable[..], AddedFrames(fd, length);
      Enlarge(fd, fdtable[fd].cur + length);
      TransferGrown(fd, buf, length, v, fds, n);
      WrittenFits(v, V(), fds[fd].inodeBid, n, buf, fds[fd].cur);
      written := length;
    }

    /** The part of write after the file grew by n frames. */
    method TransferGrown(fd: nat, buf: seq<Byte>, length: nat, ghost v: Vol, ghost fds: seq<Fd>, ghost n: nat)
      requires Valid() && fd < fdtable.Length == |fds| && fdtable[fd].valid && length == |buf|
      requires fdtable[..] == fds[fd := fds[fd].(inode := fdtable[..][fd].inode)]
      requires fdtable[fd].inodeBid in v.chain && Grown(v, V(), fdtable[fd].inodeBid, n) && InOrder(v, V(), fdtable[fd].inodeBid)
      requires fdtable[fd].cur < BLOCK_SIZE
      requires fdtable[fd].cur + length < FRAME_SIZE * |chain[fdtable[fd].inodeBid]|
      modifies this`disk, fdtable
      ensures Valid() && Used() == old(Used())
      ensures FileWritten(v, V(), fds[fd].inodeBid, n, buf, fds[fd].cur)
      ensures fdtable[..] == fds[fd := fds[fd].(inode := fdtable[..][fd].inode, cur := fds[fd].cur + length)]
    {
      hide Inv, ContentOut, FileWritten, InOrder, StoredKept;
      ghost var w, fds1 := V(), fdtable[..];
      TransferOut(fd, buf, length, w, fds1);
      TwoUpdates(fds, fds1, fdtable[..], fd, fds[fd].cur + length);
      GrownThenWritten(v, w, V(), fds1[fd], n, buf);
    }

    /** The part of write that grows the file, if its size does not suffice. */
    method Enlarge(fd: nat, newSize: nat)
      requires Valid() && fd < fdtable.Length && fdtable[fd].valid
      requires fdtable[fd].inodeBid in chain
      requires Room(V(), (FRAME_COUNT + 1) * Missing(|chain[fdtable[fd].inodeBid]|, newSize))
      modifies this, freemap, fdtable
      ensures Valid() && freemap == old(freemap)
      ensures var x, n := old(fdtable[fd].inodeBid), Missing(|old(chain)[old(fdtable[fd].inodeBid)]|, newSize);
        Grown(old(V()), V(), x, n) && InOrder(old(V()), V(), x) && |Used()| == |old(Used())| + (FRAME_COUNT + 1) * n
      ensures Fitted(old(V()), V(), old(fdtable[fd].inodeBid), newSize)
      ensures fdtable[..] == old(fdtable[..])[fd := old(fdtable[fd]).(inode := fdtable[fd].inode)]
    {
      FdFacts(V(), fdtable[..], fd);
      GrownNothing(V(), fdtable[fd].inodeBid);
      if newSize > fdtable[fd].inode.size {
        ResizeFile(fd, newSize);
      }
    }

    /** The part of write after the file has its final size. */
    method TransferOut(fd: nat, buf: seq<Byte>, length: nat, ghost v: Vol, ghost fds: seq<Fd>)
      requires Valid() && fd < fdtable.Length && fdtable[fd].valid && length == |buf|
      requires V() == v && fdtable[..] == fds
      requires fds[fd].inodeBid in chain && fds[fd].cur < BLOCK_SIZE
      requires fds[fd].cur + length < FRAME_SIZE * |chain[fds[fd].inodeBid]|
      modifies this`disk, fdtable
      ensures Valid() && ContentOut(v, V(), fds[fd], buf) && freemap[..] == old(freemap[..])
      ensures fdtable[..] == fds[fd := fds[fd].(cur := fds[fd].cur + length)]
    {
      hide Inv, FdsOk, ContentOut;
      var cur := WriteOut(fd, buf, length);
      FdsAfterOut(v, V(), fds[fd], buf, fds);
      MoveCursor(fd, cur);
      FdsMoved(V(), fds, fd, cur);
    }

    method MoveCursor(fd: nat, cur: nat)
      requires fd < fdtable.Length && freemap.Length != fdtable.Length
      modifies fdtable
      ensures fdtable[..] == old(fdtable[..])[fd := old(fdtable[fd]).(cur := cur)]
      ensures V() == old(V()) && freemap[..] == old(freemap[..])
    {
      fdtable[fd] := fdtable[fd].(cur := cur);
    }

    method WriteOut(fd: nat, buf: seq<Byte>, length: nat) returns (cur: nat)
      requires Valid() && fd < fdtable.Length && fdtable[fd].valid && length == |buf|
      requires fdtable[fd].inodeBid in chain && fdtable[fd].cur < BLOCK_SIZE
      requires fdtable[fd].cur + length < FRAME_SIZE * |chain[fdtable[fd].inodeBid]|
      modifies this`disk
      ensures cur == fdtable[fd].cur + length && freemap[..] == old(freemap[..])
      ensures ContentOut(old(V()), V(), fdtable[fd], buf)
    {
      var bids := ContentIds(fd, length);
      cur := WriteBlocks(bids, buf, fdtable[fd].cur, length, V(), fdtable[fd].inodeBid);
    }

    /** Reads from the open file at its cursor, which stands in the first block,
        and advances the cursor; beyond the end of the file nothing is read. */
    method Read(fd: nat, buf: array<Byte>, length: nat) returns (n: nat)
      requires Valid() && fd < fdtable.Length && fdtable[fd].valid && fdtable[fd].inodeBid in chain
      requires buf as object != freemap && buf as object != fdtable && length <= buf.Length
      requires var size := FRAME_SIZE * |chain[fdtable[fd].inodeBid]|;
        fdtable[fd].cur <= size ==> 0 < length && fdtable[fd].cur < BLOCK_SIZE && fdtable[fd].cur + length < size
      modifies fdtable, buf
      ensures Valid() && V() == old(V())
      ensures var past := old(fdtable[fd].cur) > FRAME_SIZE * |chain[old(fdtable[fd].inodeBid)]|;
        && n == (if past then 0 else length)
        && Delivered(V(), old(fdtable[fd].inodeBid), buf[..], old(buf[..]), if past then 0 else old(fdtable[fd].cur), n)
      ensures fdtable[..] == old(fdtable[..])[fd := old(fdtable[fd]).(cur := old(fdtable[fd].cur) + n)]
    {
      ghost var v, x, fds := V(), fdtable[fd].inodeBid, fdtable[..];
      FdFacts(v, fds, fd);
      var cur := fdtable[fd].cur;
      if cur > fdtable[fd].inode.size {
        return 0;
      }
      ReadIn(fd, buf, length);
      MoveCursor(fd, cur + length);
      FdsMoved(v, fds, fd, cur + length);
      n := length;
    }

    /** The transfer loop of read. */
    method ReadIn(fd: nat, buf: array<Byte>, length: nat)
      requires Valid() && fd < fdtable.Length && fdtable[fd].valid && fdtable[fd].inodeBid in chain
      requires buf as object != freemap && buf as object != fdtable && length <= buf.Length
      requires fdtable[fd].cur < BLOCK_SIZE && fdtable[fd].cur + length < FRAME_SIZE * |chain[fdtable[fd].inodeBid]|
      modifies buf
      ensures Delivered(V(), fdtable[fd].inodeBid, buf[..], old(buf[..]), fdtable[fd].cur, length)
      ensures V() == old(V()) && freemap[..] == old(freemap[..]) && fdtable[..] == old(fdtable[..])
    {
      hide Inv;
      ghost var v, x := V(), fdtable[fd].inodeBid;
      var cur := fdtable[fd].cur;
      ghost var from := cur;
      FdFacts(v, fdtable[..], fd);
      var bids := ContentIds(fd, length);
      var space := new Byte[BLOCK_SIZE];
      var tmp := space[..];
      var remaining, offset, bytesCompleted := length, cur % BLOCK_SIZE, 0;
      ghost var n := 0;
      while remaining != 0
        invariant 0 <= remaining && bytesCompleted + remaining == length && cur == from + bytesCompleted
        invariant 0 <= offset < BLOCK_SIZE && |tmp| == BLOCK_SIZE
        invariant remaining != 0 ==> cur == BLOCK_SIZE * n + offset && (cur == from || offset == 0)
        invariant Delivered(v, x, buf[..], old(buf[..]), from, bytesCompleted)
        invariant V() == v && freemap[..] == old(freemap[..]) && fdtable[..] == old(fdtable[..])
        invariant forall k: nat :: k <= (from + length) / BLOCK_SIZE ==> bids[k] == IdAt(v.disk, v.chain[x], k)
      {
        var toCopy;
        var blockId := cur / BLOCK_SIZE;
        assert blockId == n;
        toCopy, tmp := ReadRound(bids[blockId], tmp, blockId, offset, buf, old(buf[..]), from, bytesCompleted, remaining, x);
        bytesCompleted := bytesCompleted + toCopy;
        remaining := remaining - toCopy;
        n := n + 1;
        offset := 0;
        cur := cur + toCopy;
      }
    }

    /** One round of the loop: a block is read and a part of it copied to buf. */
    method ReadRound(bid: nat, tmp0: seq<Byte>, n: nat, offset: nat, buf: array<Byte>, ghost before: seq<Byte>,
                     ghost from: nat, done: nat, remaining: nat, ghost x: nat)
      returns (toCopy: nat, tmp: seq<Byte>)
      requires Inv(V()) && x in chain && |tmp0| == BLOCK_SIZE && remaining > 0
      requires buf as object != freemap && buf as object != fdtable && done + remaining <= buf.Length
      requires Delivered(V(), x, buf[..], before, from, done)
      requires offset < BLOCK_SIZE && from + done == BLOCK_SIZE * n + offset
      requires from + done + remaining <= FRAME_SIZE * |chain[x]| && bid == IdAt(disk, chain[x], n)
      modifies buf
      ensures |tmp| == BLOCK_SIZE && toCopy == ToCopy(remaining, offset)
      ensures V() == old(V()) && freemap[..] == old(freemap[..]) && fdtable[..] == old(fdtable[..])
      ensures Delivered(V(), x, buf[..], before, from, done + toCopy)
    {
      toCopy := ToCopy(remaining, offset);
      tmp := ReadBlock(tmp0, bid);
      DeliverStep(V(), x, buf[..], before, from, done, n, offset, toCopy, tmp);
      CopyInto(buf, done, tmp[offset..offset + toCopy]);
    }

    /** memcpy of src into buf at offset off. */
    method CopyInto(buf: array<Byte>, off: nat, src: seq<Byte>)
      requires off + |src| <= buf.Length && buf as object != freemap && buf as object != fdtable
      modifies buf
      ensures buf[..] == Overlay(old(buf[..]), off, src)
      ensures V() == old(V()) && freemap[..] == old(freemap[..]) && fdtable[..] == old(fdtable[..])
    {
      ghost var before := buf[..];
      var i := 0;
      while i < |src|
        invariant i <= |src|
        invariant forall k: nat :: k < buf.Length ==> buf[k] == if off <= k < off + i then src[k - off] else before[k]
        invariant freemap[..] == old(freemap[..]) && fdtable[..] == old(fdtable[..])
      {
        buf[off + i] := src[i];
        i := i + 1;
      }
    }

    /** Moves the cursor: loc 0 sets it, 1 and 2 move it by relative; an unsigned
        32-bit number, it wraps around. */
    method Seek(fd: nat, relative: int, loc: int) returns (r: int)
      requires Valid() && fd < fdtable.Length
      modifies fdtable
      ensures Valid() && V() == old(V()) && r == (if 0 <= loc <= 2 then 0 else 1)
      ensures r != 0 ==> fdtable[..] == old(fdtable[..])
      ensures r == 0 ==>
        var cur := Sought(if loc == 0 then 0 else old(fdtable[fd].cur), relative);
        fdtable[..] == old(fdtable[..])[fd := old(fdtable[fd]).(cur := cur)]
    {
      ghost var fds := fdtable[..];
      if loc == 0 {
        MoveCursor(fd, Sought(0, relative));
        FdsMoved(V(), fds, fd, Sought(0, relative));
      } else if loc == 1 || loc == 2 {
        var cur := Sought(fdtable[fd].cur, relative);
        MoveCursor(fd, cur);
        FdsMoved(V(), fds, fd, cur);
      } else {
        return 1;
      }
      return 0;
    }
  }
}
