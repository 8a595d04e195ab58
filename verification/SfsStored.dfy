/** What the backing file holds of a volume: every struct in the form that loading
    it gives back, and the bytes of a file that a read can deliver. */
module SfsStored {
  import opened DiskBytes
  import opened SfsLayout
  import opened SfsCodec
  import opened SfsBitmap
  import opened SfsVolume
  import opened SfsVolumeLemmas
  import opened SfsFileLemmas
  import opened SfsSteps
  import opened SfsTransfer
  import opened SfsFileSystem

  // ----- structs

  lemma {:induction false} DistinctCount(s: seq<nat>)
    requires NoDuplicates(s)
    ensures |SetOf(s)| == |s|
  {
    if s == [] {
      assert SetOf(s) == {};
    } else {
      var last, rest := s[|s| - 1], s[..|s| - 1];
      DistinctCount(rest);
      assert SetOf(s) == SetOf(rest) + {last};
    }
  }

  /** No frame is in a chain twice. */
  lemma ChainDistinct(v: Vol, x: nat)
    requires Inv(v) && x in v.chain
    ensures NoDuplicates(v.chain[x]) && |SetOf(v.chain[x])| == |v.chain[x]|
  {
    var frames := v.chain[x];
    assert NodeOk(v, x);
    forall k: nat, l: nat | k < l < |frames| ensures frames[k] != frames[l] {
      assert v.own[frames[k]] == FrameOwner(x, k) && v.own[frames[l]] == FrameOwner(x, l);
    }
    DistinctCount(frames);
  }

  /** A file has at most as many frames as there are block ids. */
  lemma ChainFits(v: Vol, x: nat)
    requires Inv(v) && x in v.chain
    ensures |v.chain[x]| <= MAX_BLOCK_ID
  {
    var frames := v.chain[x];
    forall b | b in frames ensures b in Upto(MAX_BLOCK_ID) {
      var k: nat :| k < |frames| && frames[k] == b;
      FrameLink(v, x, k);
    }
    ChainDistinct(v, x);
    SubsetCount(SetOf(frames), Upto(MAX_BLOCK_ID));
  }

  lemma OwnedIsWord(v: Vol, b: nat)
    requires Inv(v) && b in v.own
    ensures 2 < b <= MAX_BLOCK_ID && IsWord(b)
  {
    assert NodeOk(v, b);
  }

  lemma LinkIsWord(v: Vol, s: seq<nat>, k: nat)
    requires Inv(v) && forall i: nat {:trigger s[i]} :: i < |s| ==> s[i] in v.own
    ensures IsWord(First(s)) && IsWord(Next(s, k))
  {
    if s != [] {
      OwnedIsWord(v, s[0]);
    }
    if k + 1 < |s| {
      OwnedIsWord(v, s[k + 1]);
    }
  }

  lemma DirStorable(v: Vol, d: nat)
    requires Inv(v) && d in v.own && v.own[d] == DirOwner
    ensures Storable(At(v.disk, d))
  {
    assert NodeOk(v, d);
    var inodes := At(v.disk, d).dir.inodes;
    forall s: nat | s < |inodes| ensures IsWord(inodes[s]) {
      if inodes[s] != 0 {
        OwnedIsWord(v, inodes[s]);
      }
    }
  }

  lemma InodeStorable(v: Vol, x: nat)
    requires Inv(v) && x in v.own && v.own[x].InodeOwner?
    ensures Storable(At(v.disk, x))
  {
    assert NodeOk(v, x);
    ChainFits(v, x);
    LinkIsWord(v, v.chain[x], 0);
  }

  lemma FrameStorable(v: Vol, f: nat)
    requires Inv(v) && f in v.own && v.own[f].FrameOwner?
    ensures Storable(At(v.disk, f))
  {
    assert NodeOk(v, f);
    var x := v.own[f].inode;
    assert NodeOk(v, x);
    LinkIsWord(v, v.chain[x], v.own[f].index);
    var content := At(v.disk, f).frame.content;
    forall c: nat | c < |content| ensures IsWord(content[c]) {
      OwnedIsWord(v, content[c]);
    }
  }

  /** Block b holds a struct of the mounted file system: the superblock, the freemap,
      a directory, an inode or a frame. */
  ghost predicate HoldsStruct(v: Vol, b: nat) {
    b <= 1 || (b in v.own && !v.own[b].ContentOwner?)
  }

  /** In every state that the operations can reach, each struct on the disk fills its
      block and comes back when the block is loaded. */
  lemma StructsStorable(fs: FileSystem, b: nat)
    requires fs.Valid() && HoldsStruct(fs.V(), b)
    ensures Storable(At(fs.disk, b))
  {
    var v := fs.V();
    if b == 0 {
      DirIdsNonzero(v, 0);
    } else if b > 1 {
      match v.own[b] {
        case DirOwner => DirStorable(v, b);
        case InodeOwner(_, _) => InodeStorable(v, b);
        case FrameOwner(_, _) => FrameStorable(v, b);
      }
    }
  }

  // ----- bytes of files

  /** Whatever the buffer held, a raw read of its block delivers byte p of file x. */
  ghost predicate ReadsTrue(v: Vol, x: nat, p: nat)
    requires x in v.chain && p < FRAME_SIZE * |v.chain[x]|
  {
    forall tmp: seq<Byte> :: |tmp| == BLOCK_SIZE ==>
      RawRead(v.disk, IdAt(v.disk, v.chain[x], p / BLOCK_SIZE), tmp)[p % BLOCK_SIZE] == DataOf(v, x)[p]
  }

  /** A byte is read true exactly when the backing file reaches to its block. */
  lemma ReadsTrueWhenStored(v: Vol, x: nat, p: nat)
    requires x in v.chain && p < FRAME_SIZE * |v.chain[x]|
    ensures ReadsTrue(v, x, p) <==> p in StoredBytes(v, x)
    ensures p in StoredBytes(v, x) <==> IdAt(v.disk, v.chain[x], p / BLOCK_SIZE) < |v.disk|
  {
    var b := IdAt(v.disk, v.chain[x], p / BLOCK_SIZE);
    if b >= |v.disk| {
      var ones: seq<Byte> := seq(BLOCK_SIZE, _ => 1);
      assert RawRead(v.disk, b, ones)[p % BLOCK_SIZE] == 1;
      assert DataOf(v, x)[p] == Zeros(BLOCK_SIZE)[p % BLOCK_SIZE] == 0;
    }
  }

  /** While no id above the 1024 blocks of a new file system is in use, all of every
      file is read true. */
  lemma AllReadTrue(v: Vol, x: nat, p: nat)
    requires Inv(v) && (forall b :: b in v.used ==> b <= SFS_NBLOCKS)
    requires x in v.chain && p < FRAME_SIZE * |v.chain[x]|
    ensures ReadsTrue(v, x, p)
  {
    ContentOwned(v, x, p / BLOCK_SIZE);
    assert NodeOk(v, IdAt(v.disk, v.chain[x], p / BLOCK_SIZE));
    ReadsTrueWhenStored(v, x, p);
  }
}
