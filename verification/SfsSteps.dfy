/** What the steps of the file system operations do to a volume, to the open
    descriptors and to the user's view, stated on values. */
module SfsSteps {
  import opened DiskBytes
  import opened SfsLayout
  import opened SfsBitmap
  import opened SfsVolume
  import opened SfsVolumeLemmas
  import opened SfsFileLemmas

  /** Directory number i is called name. */
  ghost predicate DirNamed(v: Vol, i: nat, name: string) {
    i < |v.dirs| && Dirs(v)[i].name == name
  }

  ghost predicate HasDir(v: Vol, name: string) {
    exists i: nat :: DirNamed(v, i, name)
  }

  /** At least n block ids are free. */
  ghost predicate Room(v: Vol, n: nat) {
    |v.used| + n <= MAX_BLOCK_ID
  }

  /** Every id below b is in use: b is at most the lowest free id. */
  ghost predicate Lowest(used: set<nat>, b: nat) {
    forall c: nat :: 1 <= c < b ==> c in used
  }

  /** The length of the backing file after block b was written. */
  function LengthWith(disk: seq<Block>, b: nat): nat {
    if b < |disk| then |disk| else b + 1
  }

  /** From v to v', one directory was added at the end of the list, in the lowest
      free block, and no file changed. */
  ghost predicate DirCreated(v: Vol, v': Vol, name: string) {
    && v'.dirs != []
    && var n := v'.dirs[|v'.dirs| - 1];
    && n !in v.used && Lowest(v.used, n) && v'.used == v.used + {n} && |v'.disk| == LengthWith(v.disk, n)
    && Dirs(v') == Dirs(v) + [DirView(n, name)]
    && Files(v') == Files(v) && AllStoredKept(v, v')
  }

  /** From v to v', directory i was removed and its block freed, and no file
      changed.  Removing the first directory also takes the rest off the list. */
  ghost predicate DirRemoved(v: Vol, v': Vol, i: nat)
    requires i < |v.dirs|
  {
    && v'.used == v.used - {v.dirs[i]}
    && Dirs(v') == (if i == 0 then [] else Dirs(v)[..i] + Dirs(v)[i + 1..])
    && Files(v') == Files(v) && AllStoredKept(v, v')
  }

  /** v is v0 after taking block bid, the lowest free one, which belongs to nothing yet. */
  ghost predicate NewlyAllocated(v0: Vol, v: Vol, bid: nat) {
    && Inv(v) && bid > 2 && bid !in v.own
    && bid !in v0.used && Lowest(v0.used, bid) && v.used == v0.used + {bid} && |v.disk| == |v0.disk|
    && v.dirs == v0.dirs && v.chain == v0.chain && v.own == v0.own
    && Agree(v0.disk, v.disk, {1})
    && Dirs(v) == Dirs(v0) && Files(v) == Files(v0) && AllStoredKept(v0, v)
  }

  ghost predicate IsFirstClear(w: bv32, j: nat) {
    j < 32 && !Has(w, Mask(j)) && forall k: nat :: k < j ==> Has(w, Mask(k))
  }

  /** Walking the list, the next block is the i-th directory exactly when it is
      still linked and the walk stands right before it. */
  lemma NextIsOther(v: Vol, i: nat, j: nat, dirs: seq<nat>)
    requires Inv(v) && i < |v.dirs| && j < |dirs|
    ensures dirs == v.dirs ==> (Next(dirs, j) == v.dirs[i] <==> j + 1 == i)
    ensures dirs == v.dirs[..i] + v.dirs[i + 1..] ==> Next(dirs, j) != v.dirs[i]
  {
    DirIdsNonzero(v, i);
    forall k: nat | k < |v.dirs| && k != i ensures v.dirs[k] != v.dirs[i] {
      assert Dirs(v)[k].id != Dirs(v)[i].id;
    }
  }

  lemma NameIsUnique(v: Vol, i: nat, name: string)
    requires Inv(v) && DirNamed(v, i, name)
    ensures forall k: nat :: DirNamed(v, k, name) ==> k == i
  {
  }

  lemma FirstIsFirst(v: Vol, i: nat)
    requires Inv(v) && i < |v.dirs| && v.dirs[i] == v.dirs[0]
    ensures i == 0
  {
    assert Dirs(v)[0].id == Dirs(v)[i].id;
  }

  lemma FreemapOnly(v: Vol, d: seq<Block>, fds: seq<Fd>)
    requires Inv(v) && Agree(v.disk, d, {1}) && FdsOk(v, fds)
    ensures var w := v.(disk := d);
      Inv(w) && Dirs(w) == Dirs(v) && Files(w) == Files(v) && AllStoredKept(v, w) && FdsOk(w, fds) && 1 !in v.own
  {
    OwnedAreUsed(v);
    NoFrameTouched(v, v.(disk := d), {1});
    UnownedChanged(v, d, v.used, {1});
    FreemapAside(v, v.(disk := d), fds);
    assert v.(disk := d, used := v.used) == v.(disk := d);
  }

  lemma UnlinkedFirst(v: Vol, d: seq<Block>, fds: seq<Fd>)
    requires Inv(v) && v.dirs != [] && EmptyDir(v, v.dirs[0]) && FdsOk(v, fds) && Agree(v.disk, d, {1})
    ensures var v' := HeadRemoved(v.(disk := d));
      Inv(v') && FdsOk(v', fds) && At(v'.disk, 1) == At(d, 1) && DirRemoved(v, v', 0)
  {
    var w := v.(disk := d);
    FreemapOnly(v, d, fds);
    HeadRemovedOk(w);
    FdsAside(w, HeadRemoved(w), fds, 0, v.dirs[0]);
    OwnedAreUsed(w);
    NoFrameTouched(w, HeadRemoved(w), {0});
    AllTwice(v, w, HeadRemoved(w));
  }

  lemma UnlinkedLater(v: Vol, d: seq<Block>, i: nat, fds: seq<Fd>)
    requires Inv(v) && 0 < i < |v.dirs| && EmptyDir(v, v.dirs[i]) && FdsOk(v, fds) && Agree(v.disk, d, {1})
    ensures var v' := LaterRemoved(v.(disk := d), i);
      Inv(v') && FdsOk(v', fds) && At(v'.disk, 1) == At(d, 1) && DirRemoved(v, v', i)
  {
    var w := v.(disk := d);
    FreemapOnly(v, d, fds);
    LaterRemovedOk(w, i);
    LaterRemovedKept(w, i);
    FdsAside(w, LaterRemoved(w, i), fds, v.dirs[i - 1], v.dirs[i]);
    NoFrameTouched(w, LaterRemoved(w, i), {v.dirs[i - 1]});
    AllTwice(v, w, LaterRemoved(w, i));
  }

  /** The same, spelled out for the disk write. */
  lemma UnlinkedBehind(v: Vol, d: seq<Block>, i: nat, prev: nat, dir: Dir, fds: seq<Fd>)
    requires Inv(v) && 0 < i < |v.dirs| && EmptyDir(v, v.dirs[i]) && FdsOk(v, fds) && Agree(v.disk, d, {1})
    requires prev == v.dirs[i - 1] && At(v.disk, prev) == DirBlock(dir)
    ensures var d' := Put(d, prev, DirBlock(dir.(nextDir := Next(v.dirs, i))));
      var v' := Vol(d', v.used - {v.dirs[i]}, v.dirs[..i] + v.dirs[i + 1..], v.chain, v.own - {v.dirs[i]});
      Inv(v') && FdsOk(v', fds) && At(d', 1) == At(d, 1) && At(d', 0) == At(v.disk, 0) && DirRemoved(v, v', i)
  {
    hide Inv, FdsOk, EmptyDir, DirRemoved;
    DirIdsNonzero(v, i - 1);
    assert At(d, prev) == At(v.disk, prev) && At(d, 0) == At(v.disk, 0);
    UnlinkedLater(v, d, i, fds);
  }

  /** Rewriting a directory block and dropping another does not disturb any descriptor. */
  lemma FdsAside(v: Vol, v': Vol, fds: seq<Fd>, prev: nat, d: nat)
    requires Inv(v) && FdsOk(v, fds) && Kept(v, v', {prev}, {d}) && v'.chain == v.chain
    requires d in v.own && v.own[d] == DirOwner && (prev == 0 || (prev in v.own && v.own[prev] == DirOwner))
    ensures FdsOk(v', fds)
  {
    forall i: nat | i < |fds| && fds[i].valid
      ensures var x := fds[i].inodeBid; x != prev && x in v'.own && v'.own[x] == v.own[x]
    {
      assert FdOk(v, fds[i]);
      assert NodeOk(v, fds[i].inodeBid);
    }
    FdsStay(v, v', fds, {prev});
  }

  /** Everything that allocating block n and linking it as a new directory does
      and does not change. */
  lemma LinkedDir(v0: Vol, v: Vol, n: nat, name: string, fds: seq<Fd>)
    requires NewlyAllocated(v0, v, n) && FdsOk(v, fds) && !HasDir(v0, name) && NameFits(name, MAX_DIR_NAME)
    ensures var v' := DirAdded(v, n, name);
      Inv(v') && FdsOk(v', fds) && At(v'.disk, 1) == At(v.disk, 1) && DirCreated(v0, v', name)
  {
    forall i: nat | i < |v.dirs| ensures Dirs(v)[i].name != name {
      assert |Dirs(v0)| == |v.dirs|;
      assert !DirNamed(v0, i, name);
    }
    DirAddedOk(v, n, name);
    FdsAfterDirAdded(v, n, name, fds);
    var last := DirAddedKept(v, n, name);
    NoFrameTouched(v, DirAdded(v, n, name), {last, n});
    AllTwice(v0, v, DirAdded(v, n, name));
    OwnedAreUsed(v);
    assert 1 !in {last, n} by {
      if last == 1 {
        assert last in v.own;
      }
    }
  }

  /** The same, spelled out for the disk writes of a non-empty list. */
  lemma LinkedAfter(v0: Vol, v: Vol, n: nat, name: string, last: nat, dir: Dir, fds: seq<Fd>)
    requires NewlyAllocated(v0, v, n) && FdsOk(v, fds) && !HasDir(v0, name) && NameFits(name, MAX_DIR_NAME)
    requires v.dirs != [] && last == v.dirs[|v.dirs| - 1] && At(v.disk, last) == DirBlock(dir)
    ensures var d := Put(Put(v.disk, last, DirBlock(dir.(nextDir := n))), n, DirBlock(NewDir(name)));
      var v' := Vol(d, v.used, v.dirs + [n], v.chain, v.own[n := DirOwner]);
      Inv(v') && FdsOk(v', fds) && At(d, 1) == At(v.disk, 1) && DirCreated(v0, v', name)
  {
    LinkedDir(v0, v, n, name, fds);
  }

  /** Descriptors stay good while their inodes are left alone. */
  lemma FdsStay(v: Vol, v': Vol, fds: seq<Fd>, s: set<nat>)
    requires FdsOk(v, fds) && Agree(v.disk, v'.disk, s)
    requires forall i: nat {:trigger fds[i]} :: i < |fds| && fds[i].valid ==>
      var x := fds[i].inodeBid; x !in s && x in v'.chain && x in v'.own && v'.own[x] == v.own[x]
    ensures FdsOk(v', fds)
  {
    forall i: nat | i < |fds| && fds[i].valid ensures FdOk(v', fds[i]) {
      assert FdOk(v, fds[i]);
    }
  }

  /** Writing the freemap block does not disturb any descriptor. */
  lemma FreemapAside(v: Vol, v': Vol, fds: seq<Fd>)
    requires Inv(v) && Agree(v.disk, v'.disk, {1}) && v'.own == v.own && v'.chain == v.chain
    ensures FdsOk(v, fds) ==> FdsOk(v', fds)
  {
    OwnedAreUsed(v);
    if FdsOk(v, fds) {
      forall i: nat | i < |fds| && fds[i].valid ensures FdOk(v', fds[i]) {
        assert FdOk(v, fds[i]);
      }
    }
  }

  /** Adding a directory does not disturb any descriptor. */
  lemma FdsAfterDirAdded(v: Vol, n: nat, name: string, fds: seq<Fd>)
    requires Inv(v) && n !in v.own && n > 2 && FdsOk(v, fds)
    ensures FdsOk(DirAdded(v, n, name), fds)
  {
    var last := DirAddedKept(v, n, name);
    forall i: nat | i < |fds| && fds[i].valid
      ensures var x := fds[i].inodeBid; x !in {last, n} && x in v.own && x != 0
    {
      assert FdOk(v, fds[i]);
      assert NodeOk(v, fds[i].inodeBid);
    }
    FdsStay(v, DirAdded(v, n, name), fds, {last, n});
  }

  lemma DirIdsNonzero(v: Vol, i: nat)
    requires Inv(v)
    ensures i < |v.dirs| ==> 2 < v.dirs[i] <= MAX_BLOCK_ID
  {
    if i < |v.dirs| {
      assert DirLinkOk(v, i);
      assert NodeOk(v, v.dirs[i]);
    }
  }

  lemma RoomMeansFree(v: Vol)
    requires Room(v, 1)
    ensures v.used != Upto(MAX_BLOCK_ID)
  {
  }

  /** What taking a free block does to the volume. */
  lemma Allocated(v: Vol, d: seq<Block>, bid: nat)
    requires Inv(v) && Agree(v.disk, d, {1}) && |d| == |v.disk|
    requires 1 <= bid <= MAX_BLOCK_ID && bid !in v.used && Lowest(v.used, bid)
    ensures |v.used + {bid}| == |v.used| + 1
    ensures NewlyAllocated(v, v.(disk := d, used := v.used + {bid}), bid)
  {
    OwnedAreUsed(v);
    UnownedChanged(v, d, v.used + {bid}, {1});
    NoFrameTouched(v, v.(disk := d, used := v.used + {bid}), {1});
  }

  /** A directory is neither block 0, 1 nor 2. */
  lemma DirIsLater(v: Vol, d: nat)
    requires Inv(v) && HasFreeSlot(v, d)
    ensures IsDir(v, d) && d > 2
  {
    OwnedAreUsed(v);
  }

  /** Allocating a block leaves a directory block alone. */
  lemma DirAside(v: Vol, w: Vol, bid: nat, d: nat)
    requires IsDir(v, d) && d != 1 && NewlyAllocated(v, w, bid)
    ensures IsDir(w, d) && At(w.disk, d) == At(v.disk, d)
  {
    hide Inv;
  }

  lemma SuperblockOf(v: Vol)
    requires Inv(v)
    ensures At(v.disk, 0) == SuperBlock(Superblock(SFS_MAGIC, SFS_NBLOCKS, 1, First(v.dirs))) && |v.disk| > SFS_NBLOCKS
  {
  }

  /** The same for the freemap block that is written, and the open descriptors. */
  lemma AllocatedAside(v: Vol, d: seq<Block>, bid: nat, fm: Block, fds: seq<Fd>)
    requires Inv(v) && d == Put(v.disk, 1, fm) && 1 <= bid <= MAX_BLOCK_ID && bid !in v.used && Lowest(v.used, bid)
    ensures |v.used + {bid}| == |v.used| + 1
    ensures var v' := v.(disk := d, used := v.used + {bid});
      && Inv(v') && At(d, 0) == At(v.disk, 0) && At(d, 1) == fm && NewlyAllocated(v, v', bid)
      && (FdsOk(v, fds) ==> FdsOk(v', fds))
  {
    Allocated(v, d, bid);
    FreemapAside(v, v.(disk := d, used := v.used + {bid}), fds);
  }

  /** What freeing a block that belongs to nothing does to the volume. */
  lemma Freed(v: Vol, d: seq<Block>, bid: nat)
    requires Inv(v) && Agree(v.disk, d, {1}) && bid > 2 && bid !in v.own
    ensures var v' := v.(disk := d, used := v.used - {bid});
      Inv(v') && Dirs(v') == Dirs(v) && Files(v') == Files(v) && AllStoredKept(v, v')
  {
    OwnedAreUsed(v);
    UnownedChanged(v, d, v.used - {bid}, {1});
    NoFrameTouched(v, v.(disk := d, used := v.used - {bid}), {1});
  }

  lemma AllUsed(words: seq<bv32>)
    requires forall b :: 1 <= b <= 32 * |words| ==> b in UsedOf(words)
    ensures UsedOf(words) == Upto(32 * |words|)
  {
  }

  lemma WordFull(words: seq<bv32>, i: nat)
    requires i < |words| && AllSet(words[i])
    ensures forall b :: 32 * i < b <= 32 * i + 32 ==> b in UsedOf(words)
  {
    forall b | 32 * i < b <= 32 * i + 32 ensures b in UsedOf(words) {
      IdSplit(i, b - 32 * i - 1, b);
      assert Has(words[i], Mask(b - 32 * i - 1));
    }
  }

  lemma LowestFree(words: seq<bv32>, i: nat, j: nat)
    requires i < |words| && IsFirstClear(words[i], j)
    requires forall b :: 1 <= b <= 32 * i ==> b in UsedOf(words)
    ensures 32 * i + j + 1 !in UsedOf(words)
    ensures forall b :: 1 <= b <= 32 * i + j ==> b in UsedOf(words)
  {
    IdSplit(i, j, 32 * i + j + 1);
    forall b | 32 * i < b <= 32 * i + j ensures b in UsedOf(words) {
      IdSplit(i, b - 32 * i - 1, b);
      assert Has(words[i], Mask(b - 32 * i - 1));
    }
  }

  // ----- files

  /** x is the file called name in directory d. */
  ghost predicate FileAt(v: Vol, d: nat, name: string, x: nat) {
    x in v.chain && DirOf(v, x) == d && FileName(v, x) == name
  }

  /** From v to v', one empty file was added to directory d, with its inode in
      the lowest free block; nothing else changed for the user. */
  ghost predicate FileCreated(v: Vol, v': Vol, d: nat, name: string, x: nat) {
    && x !in v.used && Lowest(v.used, x) && v'.used == v.used + {x} && |v'.disk| == LengthWith(v.disk, x)
    && v'.chain == v.chain[x := []]
    && v'.dirs == v.dirs && Dirs(v') == Dirs(v)
    && Files(v') == Files(v)[x := FileView(d, name, [])]
    && StoredKept(v, v', x)
  }

  /** The view decides which file has which name. */
  lemma SameFiles(v: Vol, v': Vol, d: nat, name: string)
    requires Files(v') == Files(v)
    ensures forall x :: FileAt(v', d, name, x) == FileAt(v, d, name, x)
  {
    forall x ensures FileAt(v', d, name, x) == FileAt(v, d, name, x) {
      if x in v.chain {
        assert Files(v)[x] == ViewOf(v, x) && Files(v')[x] == ViewOf(v', x);
      }
    }
  }

  ghost predicate HasFile(v: Vol, d: nat, name: string) {
    exists x :: FileAt(v, d, name, x)
  }

  /** The file may be opened: it is not open yet, or it can be created. */
  ghost predicate MayOpen(v: Vol, fds: seq<Fd>, d: nat, name: string) {
    if HasFile(v, d, name) then forall x :: FileAt(v, d, name, x) ==> !IsOpen(fds, x)
    else Room(v, 1) && HasFreeSlot(v, d) && NameFits(name, MAX_FILE_NAME)
  }

  ghost predicate HasFreeSlot(v: Vol, d: nat) {
    IsDir(v, d) && exists s: nat :: s < DIR_SLOTS && At(v.disk, d).dir.inodes[s] == 0
  }

  /** A nonzero slot of a directory holds the inode number of one of its files. */
  lemma SlotIsFile(v: Vol, d: nat, s: nat)
    requires Inv(v) && IsDir(v, d) && s < DIR_SLOTS && At(v.disk, d).dir.inodes[s] != 0
    ensures var x := At(v.disk, d).dir.inodes[s];
      x in v.chain && x in v.own && DirOf(v, x) == d && At(v.disk, x).InodeBlock?
  {
    assert NodeOk(v, d);
    var x := At(v.disk, d).dir.inodes[s];
    assert x in v.own;
    assert NodeOk(v, x);
  }

  /** The file in slot s of a directory. */
  function InSlot(v: Vol, d: nat, s: nat): nat {
    if At(v.disk, d).DirBlock? && s < |At(v.disk, d).dir.inodes| then At(v.disk, d).dir.inodes[s] else 0
  }

  ghost function InSlots(v: Vol, d: nat, n: nat): set<nat> {
    set s: nat | s < n :: InSlot(v, d, s)
  }

  ghost function FilesIn(v: Vol, d: nat): set<nat> {
    set x | x in v.chain && DirOf(v, x) == d
  }

  lemma SlotsDiffer(v: Vol, d: nat, s: nat, t: nat)
    requires Inv(v) && IsDir(v, d) && s < t < DIR_SLOTS && InSlot(v, d, s) != 0 && InSlot(v, d, t) != 0
    ensures InSlot(v, d, s) != InSlot(v, d, t)
  {
    assert NodeOk(v, d);
    var inodes := At(v.disk, d).dir.inodes;
    assert inodes[s] in v.own && inodes[t] in v.own;
  }

  lemma {:induction false} SlotsCount(v: Vol, d: nat, n: nat)
    requires Inv(v) && IsDir(v, d) && n <= DIR_SLOTS
    requires forall s: nat :: s < n ==> InSlot(v, d, s) != 0
    ensures InSlots(v, d, n) <= FilesIn(v, d) && |InSlots(v, d, n)| == n
  {
    if n > 0 {
      SlotsCount(v, d, n - 1);
      var x := InSlot(v, d, n - 1);
      SlotIsFile(v, d, n - 1);
      forall s: nat | s < n - 1 ensures InSlot(v, d, s) != x {
        SlotsDiffer(v, d, s, n - 1);
      }
      assert InSlots(v, d, n) == InSlots(v, d, n - 1) + {x};
    }
  }

  /** A directory with fewer than 97 files has a free slot. */
  lemma FreeSlot(v: Vol, d: nat)
    requires Inv(v) && IsDir(v, d) && |FilesIn(v, d)| < DIR_SLOTS
    ensures HasFreeSlot(v, d)
  {
    if forall s: nat :: s < DIR_SLOTS ==> InSlot(v, d, s) != 0 {
      SlotsCount(v, d, DIR_SLOTS);
      SubsetCount(InSlots(v, d, DIR_SLOTS), FilesIn(v, d));
      assert false;
    }
    var s: nat :| s < DIR_SLOTS && InSlot(v, d, s) == 0;
    assert At(v.disk, d).dir.inodes[s] == 0;
  }

  /** A file is in one of the slots of its directory. */
  lemma FileHasSlot(v: Vol, x: nat)
    requires Inv(v) && x in v.chain
    ensures x in v.own && v.own[x].InodeOwner? && IsDir(v, DirOf(v, x)) && v.own[x].slot < DIR_SLOTS
    ensures At(v.disk, DirOf(v, x)).dir.inodes[v.own[x].slot] == x && x != 0
  {
    assert NodeOk(v, x);
  }

  lemma NotInSlots(v: Vol, d: nat, name: string)
    requires Inv(v) && IsDir(v, d)
    requires forall s: nat :: s < DIR_SLOTS && At(v.disk, d).dir.inodes[s] != 0 ==>
      FileName(v, At(v.disk, d).dir.inodes[s]) != name
    ensures forall x :: !FileAt(v, d, name, x)
  {
    forall x | x in v.chain && DirOf(v, x) == d ensures FileName(v, x) != name {
      FileHasSlot(v, x);
    }
  }

  /** Adding a file does not disturb any descriptor, nor the first two blocks. */
  lemma InodeAddedAside(v: Vol, d: nat, s: nat, x: nat, name: string, fds: seq<Fd>)
    requires Inv(v) && CanCreate(v, d, s, name) && x !in v.own && x > 2 && FdsOk(v, fds)
    ensures var v' := InodeAdded(v, d, s, x, name);
      && FdsOk(v', fds) && FdOk(v', Fd(Inode(0, 0, name), x, d, 0, true))
      && At(v'.disk, 0) == At(v.disk, 0) && At(v'.disk, 1) == At(v.disk, 1)
  {
    InodeAddedKept(v, d, s, x, name);
    var v' := InodeAdded(v, d, s, x, name);
    forall i: nat | i < |fds| && fds[i].valid
      ensures var y := fds[i].inodeBid; y !in {d, x} && y in v'.chain && y in v'.own && v'.own[y] == v.own[y]
    {
      assert FdOk(v, fds[i]);
      assert v.own[fds[i].inodeBid].InodeOwner?;
    }
    FdsStay(v, v', fds, {d, x});
  }

  lemma NameIsNew(v0: Vol, v: Vol, d: nat, dir: Dir, s: nat, x: nat, name: string)
    requires NewlyAllocated(v0, v, x)
    requires IsDir(v, d) && At(v.disk, d) == DirBlock(dir) && s < DIR_SLOTS && dir.inodes[s] == 0
    requires NameFits(name, MAX_FILE_NAME) && forall y :: !FileAt(v0, d, name, y)
    ensures CanCreate(v, d, s, name)
  {
    hide Inv, AllStoredKept, Lowest;
    SameFiles(v0, v, d, name);
    forall y | y in v.chain && DirOf(v, y) == d ensures FileName(v, y) != name {
      assert !FileAt(v, d, name, y);
    }
  }

  lemma CreatedStored(v0: Vol, v: Vol, d: nat, s: nat, x: nat, name: string)
    requires NewlyAllocated(v0, v, x) && CanCreate(v, d, s, name)
    ensures StoredKept(v0, InodeAdded(v, d, s, x, name), x)
  {
    hide Inv, AllStoredKept, Lowest, Files, Dirs;
    InodeAddedKept(v, d, s, x, name);
    AllStoredStays(v, InodeAdded(v, d, s, x, name), {d, x}, x);
    StoredAfterAll(v0, v, InodeAdded(v, d, s, x, name), x);
  }

  lemma CreatedEnd(v: Vol, d: nat, s: nat, x: nat, name: string)
    requires Inv(v) && CanCreate(v, d, s, name) && x !in v.own && x > 2
    ensures |InodeAdded(v, d, s, x, name).disk| == LengthWith(v.disk, x)
  {
    hide Inv;
    assert d < |v.disk|;
  }

  /** Everything that storing a new inode in block x does and does not change. */
  lemma CreatedFile(v0: Vol, v: Vol, d: nat, dir: Dir, s: nat, x: nat, name: string, fds: seq<Fd>)
    requires NewlyAllocated(v0, v, x) && FdsOk(v, fds)
    requires IsDir(v, d) && At(v.disk, d) == DirBlock(dir) && s < DIR_SLOTS && dir.inodes[s] == 0
    requires NameFits(name, MAX_FILE_NAME) && forall y :: !FileAt(v0, d, name, y)
    ensures var disk := Put(Put(v.disk, d, DirBlock(dir.(inodes := dir.inodes[s := x]))), x, InodeBlock(Inode(0, 0, name)));
      var v' := Vol(disk, v.used, v.dirs, v.chain[x := []], v.own[x := InodeOwner(d, s)]);
      && Inv(v') && FdsOk(v', fds) && At(disk, 1) == At(v.disk, 1) && At(disk, 0) == At(v.disk, 0)
      && FileCreated(v0, v', d, name, x) && FdOk(v', Fd(Inode(0, 0, name), x, d, 0, true))
  {
    hide Inv, FdsOk, FdOk, StoredKept, AllStoredKept, Lowest, Agree;
    NameIsNew(v0, v, d, dir, s, x, name);
    InodeAddedOk(v, d, s, x, name);
    InodeAddedAside(v, d, s, x, name, fds);
    CreatedEnd(v, d, s, x, name);
    CreatedStored(v0, v, d, s, x, name);
  }

  /** From v to v', the first free slot of directory d got file x. */
  ghost predicate FirstSlotTaken(v: Vol, v': Vol, d: nat, x: nat) {
    exists s: nat :: s < DIR_SLOTS && SlotTaken(v, v', d, s, x)
  }

  ghost predicate SlotTaken(v: Vol, v': Vol, d: nat, s: nat, x: nat) {
    InSlot(v, d, s) == 0 && (forall t: nat :: t < s ==> InSlot(v, d, t) != 0) && InSlot(v', d, s) == x
  }

  /** From v to v', file x was found or created: it has the name, and if it is
      new then no file had the name before. */
  ghost predicate Opened(v: Vol, v': Vol, d: nat, name: string, x: nat) {
    && FileAt(v', d, name, x)
    && if HasFile(v, d, name) then v' == v else FileCreated(v, v', d, name, x) && FirstSlotTaken(v, v', d, x)
  }

  lemma NewFile(v: Vol, v': Vol, fds: seq<Fd>, d: nat, name: string, x: nat)
    requires Inv(v) && FdsOk(v, fds) && FileCreated(v, v', d, name, x)
    ensures !IsOpen(fds, x) && FileAt(v', d, name, x)
  {
    hide Inv, StoredKept;
    NewFileNotOpen(v, fds, x);
    assert Files(v')[x] == ViewOf(v', x);
  }

  lemma NewFileNotOpen(v: Vol, fds: seq<Fd>, x: nat)
    requires Inv(v) && FdsOk(v, fds) && x !in v.used
    ensures !IsOpen(fds, x)
  {
    OwnedAreUsed(v);
    forall i: nat | i < |fds| && fds[i].valid ensures fds[i].inodeBid != x {
      assert FdOk(v, fds[i]);
    }
  }

  /** Descriptor i is opened on a file that is not open yet. */
  lemma FdOpened(v: Vol, fds: seq<Fd>, i: nat, fd: Fd)
    requires FdsOk(v, fds) && i < |fds| && !fds[i].valid && FdOk(v, fd) && !IsOpen(fds, fd.inodeBid)
    ensures FdsOk(v, fds[i := fd])
  {
    forall j: nat | j < |fds| && fds[j].valid ensures fds[j].inodeBid != fd.inodeBid {
    }
  }

  ghost function SetOf(s: seq<nat>): set<nat> {
    set b | b in s
  }

  /** From v to v', file x is gone; its inode and its frames are free again, its
      content blocks stay marked used. */
  ghost predicate FileRemoved(v: Vol, v': Vol, x: nat)
    requires x in v.chain
  {
    && v'.used == v.used - SetOf(v.chain[x]) - {x}
    && v'.dirs == v.dirs && Dirs(v') == Dirs(v)
    && Files(v') == Files(v) - {x}
    && v'.chain == v.chain - {x} && AllStoredKept(v, v')
  }

  /** After the slot of file x is cleared, the blocks of x belong to nothing. */
  lemma SlotCleared(v: Vol, x: nat, i: nat, fds: seq<Fd>)
    requires Inv(v) && FdsOk(v, fds) && i < |fds| && fds[i].valid && fds[i].inodeBid == x
    ensures x in v.chain && x in v.own && v.own[x].InodeOwner? && v.own[x].dir == fds[i].dirBid
    ensures IsDir(v, v.own[x].dir) && v.own[x].slot < DIR_SLOTS && v.own[x].dir > 2
    ensures forall s: nat :: s < DIR_SLOTS ==> (At(v.disk, v.own[x].dir).dir.inodes[s] == x <==> s == v.own[x].slot)
    ensures var w := InodeRemoved(v, x);
      && Inv(w) && Dirs(w) == Dirs(v) && Files(w) == Files(v) - {x} && AllStoredKept(v, w) && x !in w.own
      && (forall f :: f in v.chain[x] ==> f !in w.own)
      && FdsOk(w, fds[i := fds[i].(valid := false)])
  {
    assert FdOk(v, fds[i]);
    InodeRemovedOk(v, x);
    InodeRemovedKept(v, x);
    FileBlocks(v, x);
    SlotIsUnique(v, x);
    FdsAfterRemoval(v, x, i, fds);
    NoFrameTouched(v, InodeRemoved(v, x), {v.own[x].dir});
  }

  lemma SlotIsUnique(v: Vol, x: nat)
    requires Inv(v) && x in v.chain
    ensures x in v.own && v.own[x].InodeOwner? && IsDir(v, v.own[x].dir) && v.own[x].slot < DIR_SLOTS && v.own[x].dir > 2
    ensures forall s: nat :: s < DIR_SLOTS ==> (At(v.disk, v.own[x].dir).dir.inodes[s] == x <==> s == v.own[x].slot)
  {
    FileHasSlot(v, x);
    var d := v.own[x].dir;
    assert NodeOk(v, d) && NodeOk(v, x);
    forall s: nat | s < DIR_SLOTS && At(v.disk, d).dir.inodes[s] == x ensures s == v.own[x].slot {
      assert At(v.disk, d).dir.inodes[s] in v.own;
    }
  }

  lemma FdsAfterRemoval(v: Vol, x: nat, i: nat, fds: seq<Fd>)
    requires Inv(v) && FdsOk(v, fds) && i < |fds| && fds[i].valid && fds[i].inodeBid == x && x in v.chain
    ensures x in v.own && v.own[x].InodeOwner? && v.own[x].slot < |DirIn(v.disk, v.own[x].dir).inodes|
    ensures FdsOk(InodeRemoved(v, x), fds[i := fds[i].(valid := false)])
  {
    InodeRemovedKept(v, x);
    var w := InodeRemoved(v, x);
    var fds' := fds[i := fds[i].(valid := false)];
    forall j: nat | j < |fds'| && fds'[j].valid
      ensures fds[j].valid && fds'[j] == fds[j]
      ensures var y := fds'[j].inodeBid; y != v.own[x].dir && y in w.chain && y in w.own && w.own[y] == v.own[y]
    {
      assert FdOk(v, fds[j]);
      FileBlocks(v, fds[j].inodeBid);
    }
    assert FdsOk(v, fds');
    FdsStay(v, w, fds', {v.own[x].dir});
  }

  /** The k-th frame of a file, as the walk over its chain sees it. */
  lemma FrameLink(v: Vol, x: nat, k: nat)
    requires Inv(v) && x in v.chain && k < |v.chain[x]|
    ensures At(v.disk, v.chain[x][k]).FrameBlock?
    ensures At(v.disk, v.chain[x][k]).frame.next == Next(v.chain[x], k)
    ensures 2 < v.chain[x][k] <= MAX_BLOCK_ID && v.chain[x][k] != v.own[x].dir
    ensures k + 1 < |v.chain[x]| ==> v.chain[x][k + 1] > 2
  {
    assert NodeOk(v, x);
    assert v.chain[x][k] in v.own && NodeOk(v, v.chain[x][k]);
    if k + 1 < |v.chain[x]| {
      assert v.chain[x][k + 1] in v.own && NodeOk(v, v.chain[x][k + 1]);
    }
  }

  /** What loading the k-th frame of a file gives: its content ids, and the way
      to the next frame. */
  lemma FrameLoaded(v: Vol, x: nat, k: nat)
    requires Inv(v) && x in v.chain && k < |v.chain[x]|
    ensures var frame := AsFrame(At(v.disk, v.chain[x][k]));
      && |frame.content| == FRAME_COUNT
      && (forall i: nat :: i / FRAME_COUNT == k ==> frame.content[i % FRAME_COUNT] == IdAt(v.disk, v.chain[x], i))
      && (k + 1 < |v.chain[x]| ==> frame.next == v.chain[x][k + 1])
  {
    FrameLink(v, x, k);
    assert NodeOk(v, x);
    assert v.chain[x][k] in v.own && NodeOk(v, v.chain[x][k]);
  }

  // ----- making and reloading a file system

  lemma ThreeHas(j: nat, m: bv32)
    requires j < 32 && m == Mask(j)
    ensures Has(3, m) <==> j < 2
  {
    MaskValues();
    if j >= 2 {
      MaskDisjoint(0, j);
      MaskDisjoint(1, j);
      ThreeDisjoint(m);
    }
  }

  lemma ThreeDisjoint(m: bv32)
    requires 1 & m == 0 && 2 & m == 0
    ensures !Has(3, m)
  {
  }

  lemma ZeroHas(m: bv32)
    ensures !Has(0, m)
  {
  }

  /** The freemap that mkfs writes marks ids 1 and 2. */
  lemma InitialUsed(words: seq<bv32>)
    requires |words| == FREEMAP_WORDS && words[0] == 3 && forall i: nat :: 0 < i < |words| ==> words[i] == 0
    ensures UsedOf(words) == {1, 2}
  {
    forall b: nat | 1 <= b <= 32 * |words| ensures Bit(words, b) <==> b == 1 || b == 2 {
      var i, j := (b - 1) / 32, (b - 1) % 32;
      IdSplit(i, j, b);
      if i == 0 {
        ThreeHas(j, Mask(j));
      } else {
        ZeroHas(Mask(j));
      }
    }
    assert 1 in UsedOf(words) && 2 in UsedOf(words) by {
      assert Bit(words, 1) && Bit(words, 2);
    }
  }

  lemma EmptyVolume(v: Vol)
    requires At(v.disk, 0) == SuperBlock(Superblock(SFS_MAGIC, SFS_NBLOCKS, 1, 0))
    requires v.used == {1, 2} && v.dirs == [] && v.chain == map[] && v.own == map[] && |v.disk| > SFS_NBLOCKS
    ensures Inv(v) && Dirs(v) == [] && Files(v) == map[]
  {
  }
}
