/** How creating, removing, growing and overwriting a file changes a volume. */
module SfsFileLemmas {
  import opened DiskBytes
  import opened SfsLayout
  import opened SfsVolume
  import opened SfsVolumeLemmas

  // ----- creating a file

  /** The volume after storing a new, empty inode x in slot s of directory d. */
  function InodeAdded(v: Vol, d: nat, s: nat, x: nat, name: string): Vol
    requires s < |DirIn(v.disk, d).inodes|
  {
    var dir := DirIn(v.disk, d);
    v.(disk := Put(Put(v.disk, d, DirBlock(dir.(inodes := dir.inodes[s := x]))), x, InodeBlock(Inode(0, 0, name))),
       chain := v.chain[x := []], own := v.own[x := InodeOwner(d, s)])
  }

  /** Slot s of directory d is free, the name fits and no file in d has it. */
  ghost predicate CanCreate(v: Vol, d: nat, s: nat, name: string) {
    && IsDir(v, d) && s < DIR_SLOTS && At(v.disk, d).dir.inodes[s] == 0 && NameFits(name, MAX_FILE_NAME)
    && forall y :: y in v.chain && DirOf(v, y) == d ==> FileName(v, y) != name
  }

  lemma InodeAddedKept(v: Vol, d: nat, s: nat, x: nat, name: string)
    requires Inv(v) && CanCreate(v, d, s, name) && x !in v.own
    ensures var v' := InodeAdded(v, d, s, x, name);
      && Kept(v, v', {d, x}, {})
      && At(v'.disk, x) == InodeBlock(Inode(0, 0, name))
      && At(v'.disk, d) == DirBlock(DirIn(v.disk, d).(inodes := DirIn(v.disk, d).inodes[s := x]))
      && d > 2 && 0 !in v.own && DirOk(v, d)
  {
    var d1 := Put(v.disk, d, DirBlock(DirIn(v.disk, d).(inodes := DirIn(v.disk, d).inodes[s := x])));
    AgreeTransitive(v.disk, d1, InodeAdded(v, d, s, x, name).disk, {d}, {x});
    assert {d} + {x} == {d, x};
    assert At(d1, d) == At(InodeAdded(v, d, s, x, name).disk, d);
    assert NodeOk(v, d);
    OwnedAreUsed(v);
  }

  lemma InodeAddedNode(v: Vol, v': Vol, d: nat, s: nat, x: nat, b: nat)
    requires Kept(v, v', {d, x}, {}) && x !in v.own && DirOk(v, d) && s < DIR_SLOTS && b in v'.used
    requires At(v.disk, d).dir.inodes[s] == 0
    requires IsDir(v', d) && At(v'.disk, d).dir == At(v.disk, d).dir.(inodes := At(v.disk, d).dir.inodes[s := x])
    requires x in v'.own && v'.own[x] == InodeOwner(d, s)
    requires b in v.own && NodeOk(v, b)
    ensures b in v'.own && NodeOk(v', b)
  {
    if b != d {
      if v.own[b] == DirOwner || Parent(v.own[b]) != d {
        ParentUntouched(v, v', {d, x}, {}, b);
      }
      NothingGone(v, b);
      NodeKept(v, v', {d, x}, {}, b);
    }
  }

  lemma InodeAddedNodes(v: Vol, d: nat, s: nat, x: nat, name: string)
    requires Inv(v) && CanCreate(v, d, s, name) && x in v.used && x !in v.own && x > 2
    ensures var v' := InodeAdded(v, d, s, x, name); forall b :: b in v'.own ==> NodeOk(v', b)
  {
    var v' := InodeAdded(v, d, s, x, name);
    InodeAddedKept(v, d, s, x, name);
    forall b | b in v'.own ensures NodeOk(v', b) {
      if b != x {
        assert NodeOk(v, b);
        InodeAddedNode(v, v', d, s, x, b);
      }
    }
  }

  lemma InodeAddedChain(v: Vol, d: nat, s: nat, x: nat, name: string)
    requires Inv(v) && CanCreate(v, d, s, name) && x !in v.own && x > 2
    ensures DirChainOk(InodeAdded(v, d, s, x, name)) && Dirs(InodeAdded(v, d, s, x, name)) == Dirs(v)
  {
    var v' := InodeAdded(v, d, s, x, name);
    InodeAddedKept(v, d, s, x, name);
    forall i: nat | i < |v.dirs| ensures DirLinkOk(v', i) && Dirs(v')[i] == Dirs(v)[i] {
      assert DirLinkOk(v, i);
      if v.dirs[i] != d {
        DirLinkKept(v, v', {d, x}, {}, i, i);
      }
    }
  }

  lemma InodeAddedNames(v: Vol, d: nat, s: nat, x: nat, name: string)
    requires Inv(v) && CanCreate(v, d, s, name) && x !in v.own && x > 2
    ensures FileNamesOk(InodeAdded(v, d, s, x, name))
  {
    var v' := InodeAdded(v, d, s, x, name);
    InodeAddedKept(v, d, s, x, name);
    forall y | y in v.chain ensures y != d && y != x && FileName(v', y) == FileName(v, y) {
      assert NodeOk(v, y);
    }
    forall y, z | y in v'.chain && z in v'.chain && y != z && SameDir(v', y, z)
      ensures FileName(v', y) != FileName(v', z)
    {
      if y != x && z != x {
        assert SameDir(v, y, z);
      } else if y == x {
        assert DirOf(v, z) == d;
      } else {
        assert DirOf(v, y) == d;
      }
    }
  }

  lemma InodeAddedOther(v: Vol, d: nat, s: nat, x: nat, name: string, y: nat)
    requires Inv(v) && CanCreate(v, d, s, name) && x !in v.own && x > 2 && y in v.chain
    ensures y != x && ViewOf(InodeAdded(v, d, s, x, name), y) == ViewOf(v, y)
  {
    InodeAddedKept(v, d, s, x, name);
    FileBlocks(v, y);
    assert FileOf(v, d) == 0;
    FileUntouched(v, InodeAdded(v, d, s, x, name), {d, x}, y);
  }

  lemma NewFileView(v: Vol, d: nat, s: nat, x: nat, name: string)
    requires x in v.chain && v.chain[x] == [] && x in v.own && v.own[x] == InodeOwner(d, s)
    requires At(v.disk, x) == InodeBlock(Inode(0, 0, name))
    ensures ViewOf(v, x) == FileView(d, name, [])
  {
    assert Data(v.disk, []) == [];
  }

  lemma InodeAddedFiles(v: Vol, d: nat, s: nat, x: nat, name: string)
    requires Inv(v) && CanCreate(v, d, s, name) && x !in v.own && x > 2
    ensures Files(InodeAdded(v, d, s, x, name)) == Files(v)[x := FileView(d, name, [])]
  {
    var v' := InodeAdded(v, d, s, x, name);
    InodeAddedKept(v, d, s, x, name);
    NewFileView(v', d, s, x, name);
    forall y | y in v.chain ensures y != x && ViewOf(v', y) == ViewOf(v, y) {
      InodeAddedOther(v, d, s, x, name, y);
    }
    FilesUpdated(v, v', x, FileView(d, name, []));
  }

  /** open's change to the disk adds exactly one file, empty, to the directory. */
  lemma InodeAddedOk(v: Vol, d: nat, s: nat, x: nat, name: string)
    requires Inv(v) && CanCreate(v, d, s, name) && x in v.used && x !in v.own && x > 2
    ensures Inv(InodeAdded(v, d, s, x, name))
    ensures Dirs(InodeAdded(v, d, s, x, name)) == Dirs(v)
    ensures Files(InodeAdded(v, d, s, x, name)) == Files(v)[x := FileView(d, name, [])]
  {
    var v' := InodeAdded(v, d, s, x, name);
    InodeAddedKept(v, d, s, x, name);
    InodeAddedNodes(v, d, s, x, name);
    InodeAddedChain(v, d, s, x, name);
    InodeAddedNames(v, d, s, x, name);
    InodeAddedFiles(v, d, s, x, name);
  }

  // ----- removing a file

  /** The blocks of file x: its inode, its frames and their content. */
  ghost function BlocksOf(v: Vol, x: nat): set<nat> {
    set b | b in v.own && FileOf(v, b) == x
  }

  /** The volume after the slot that points to file x has been cleared. */
  ghost function InodeRemoved(v: Vol, x: nat): Vol
    requires x in v.own && v.own[x].InodeOwner? && v.own[x].slot < |DirIn(v.disk, v.own[x].dir).inodes|
  {
    var d, dir := v.own[x].dir, DirIn(v.disk, v.own[x].dir);
    v.(disk := Put(v.disk, d, DirBlock(dir.(inodes := dir.inodes[v.own[x].slot := 0]))),
       chain := v.chain - {x}, own := v.own - BlocksOf(v, x))
  }

  lemma InodeRemovedKept(v: Vol, x: nat)
    requires Inv(v) && x in v.chain
    ensures x in v.own && v.own[x].InodeOwner? && v.own[x].slot < DIR_SLOTS
    ensures DirOk(v, v.own[x].dir) && At(v.disk, v.own[x].dir).dir.inodes[v.own[x].slot] == x
    ensures Kept(v, InodeRemoved(v, x), {v.own[x].dir}, BlocksOf(v, x))
    ensures v.own[x].dir !in BlocksOf(v, x) && x in BlocksOf(v, x) && v.own[x].dir != 0 && x != 0
  {
    assert NodeOk(v, x);
    assert NodeOk(v, v.own[x].dir);
  }

  lemma InodeRemovedNode(v: Vol, v': Vol, x: nat, b: nat)
    requires x in v.own && v.own[x].InodeOwner? && v.own[x].slot < DIR_SLOTS && x != 0
    requires Kept(v, v', {v.own[x].dir}, BlocksOf(v, x)) && DirOk(v, v.own[x].dir) && b in v'.used
    requires IsDir(v', v.own[x].dir)
    requires At(v.disk, v.own[x].dir).dir.inodes[v.own[x].slot] == x
    requires At(v'.disk, v.own[x].dir).dir ==
      At(v.disk, v.own[x].dir).dir.(inodes := At(v.disk, v.own[x].dir).dir.inodes[v.own[x].slot := 0])
    requires b in v.own && NodeOk(v, b) && b !in BlocksOf(v, x)
    requires v.own[b].ContentOwner? ==> v.own[b].frame in v.own && NodeOk(v, v.own[b].frame)
    ensures b in v'.own && NodeOk(v', b)
  {
    var d, gone := v.own[x].dir, BlocksOf(v, x);
    if b == d {
      assert DirOk(v', d);
    } else {
      if v.own[b] == DirOwner || Parent(v.own[b]) != d {
        ParentUntouched(v, v', {d}, gone, b);
      }
      assert ChildrenStay(v, b, gone);
      NodeKept(v, v', {d}, gone, b);
    }
  }

  lemma InodeRemovedNodes(v: Vol, x: nat)
    requires Inv(v) && x in v.chain
    ensures x in v.own && v.own[x].InodeOwner? && v.own[x].slot < |DirIn(v.disk, v.own[x].dir).inodes|
    ensures var v' := InodeRemoved(v, x); forall b :: b in v'.own ==> NodeOk(v', b)
  {
    InodeRemovedKept(v, x);
    var v' := InodeRemoved(v, x);
    forall b | b in v'.own ensures NodeOk(v', b) {
      assert NodeOk(v, b);
      InodeRemovedNode(v, v', x, b);
    }
  }

  lemma InodeRemovedChain(v: Vol, x: nat)
    requires Inv(v) && x in v.chain
    ensures x in v.own && v.own[x].InodeOwner? && v.own[x].slot < |DirIn(v.disk, v.own[x].dir).inodes|
    ensures DirChainOk(InodeRemoved(v, x)) && Dirs(InodeRemoved(v, x)) == Dirs(v)
  {
    InodeRemovedKept(v, x);
    var v' := InodeRemoved(v, x);
    forall i: nat | i < |v.dirs| ensures DirLinkOk(v', i) && Dirs(v')[i] == Dirs(v)[i] {
      assert DirLinkOk(v, i);
      if v.dirs[i] != v.own[x].dir {
        DirLinkKept(v, v', {v.own[x].dir}, BlocksOf(v, x), i, i);
      }
    }
  }

  lemma InodeRemovedFiles(v: Vol, x: nat)
    requires Inv(v) && x in v.chain
    ensures x in v.own && v.own[x].InodeOwner? && v.own[x].slot < |DirIn(v.disk, v.own[x].dir).inodes|
    ensures Files(InodeRemoved(v, x)) == Files(v) - {x}
  {
    InodeRemovedKept(v, x);
    var v' := InodeRemoved(v, x);
    forall y | y in v'.chain ensures ViewOf(v', y) == ViewOf(v, y) {
      FileBlocks(v, y);
      FileUntouched(v, v', {v.own[x].dir}, y);
    }
  }

  lemma InodeRemovedNames(v: Vol, x: nat)
    requires Inv(v) && x in v.chain
    ensures x in v.own && v.own[x].InodeOwner? && v.own[x].slot < |DirIn(v.disk, v.own[x].dir).inodes|
    ensures FileNamesOk(InodeRemoved(v, x))
  {
    InodeRemovedKept(v, x);
    FileNamesKept(v, InodeRemoved(v, x), {v.own[x].dir});
  }

  /** remove's change to the directory takes away exactly file x. */
  lemma InodeRemovedOk(v: Vol, x: nat)
    requires Inv(v) && x in v.chain
    ensures x in v.own && v.own[x].InodeOwner? && v.own[x].slot < |DirIn(v.disk, v.own[x].dir).inodes|
    ensures Inv(InodeRemoved(v, x))
    ensures Dirs(InodeRemoved(v, x)) == Dirs(v)
    ensures Files(InodeRemoved(v, x)) == Files(v) - {x}
  {
    InodeRemovedKept(v, x);
    InodeRemovedNodes(v, x);
    InodeRemovedChain(v, x);
    InodeRemovedNames(v, x);
    InodeRemovedFiles(v, x);
    var v' := InodeRemoved(v, x);
    forall y | y in v'.chain ensures y in v'.own && v'.own[y].InodeOwner? {
      FileBlocks(v, y);
    }
  }

  // ----- growing a file by one frame

  /** The owners of the content blocks of a new frame f. */
  ghost function ContentOwners(f: nat, content: seq<nat>): map<nat, Owner> {
    if content == [] then map[]
    else
      var last := |content| - 1;
      ContentOwners(f, content[..last])[content[last] := ContentOwner(f, last)]
  }

  ghost predicate NoDuplicates(s: seq<nat>) {
    forall i: nat, j: nat :: i < j < |s| ==> s[i] != s[j]
  }

  lemma {:induction false} ContentOwnersAt(f: nat, content: seq<nat>)
    requires NoDuplicates(content)
    ensures forall b :: b in ContentOwners(f, content) <==> b in content
    ensures forall c: nat {:trigger content[c]} :: c < |content| ==>
      content[c] in ContentOwners(f, content) && ContentOwners(f, content)[content[c]] == ContentOwner(f, c)
  {
    if content != [] {
      var last := |content| - 1;
      ContentOwnersAt(f, content[..last]);
      assert content == content[..last] + [content[last]];
      forall c: nat | c < |content|
        ensures content[c] in ContentOwners(f, content)
        ensures ContentOwners(f, content)[content[c]] == ContentOwner(f, c)
      {
        if c < last {
          assert content[..last][c] == content[c];
        }
      }
    }
  }

  /** The last frame of the chain; x itself when there is none. */
  function LastFrame(x: nat, frames: seq<nat>): nat {
    if frames == [] then x else frames[|frames| - 1]
  }

  /** The disk after linking the new frame f behind the chain of inode x. */
  function FrameAppendedDisk(disk: seq<Block>, x: nat, frames: seq<nat>, f: nat, content: seq<nat>, name: string): seq<Block> {
    var last := LastFrame(x, frames);
    var d1 := if frames == [] then disk else Put(disk, last, FrameBlock(AsFrame(At(disk, last)).(next := f)));
    var d2 := Put(d1, f, FrameBlock(Frame(0, content)));
    Put(d2, x, InodeBlock(Inode(FRAME_SIZE * (|frames| + 1), First(frames + [f]), name)))
  }

  ghost function FrameAppended(v: Vol, x: nat, f: nat, content: seq<nat>): Vol
    requires x in v.chain
  {
    v.(disk := FrameAppendedDisk(v.disk, x, v.chain[x], f, content, FileName(v, x)),
       chain := v.chain[x := v.chain[x] + [f]],
       own := v.own[f := FrameOwner(x, |v.chain[x]|)] + ContentOwners(f, content))
  }

  /** The 128 blocks of a new frame are allocated but belong to nothing yet. */
  ghost predicate FreshFrame(v: Vol, f: nat, content: seq<nat>) {
    && f in v.used && f !in v.own && f > 2
    && |content| == FRAME_COUNT && NoDuplicates(content) && f !in content
    && forall b :: b in content ==> b in v.used && b !in v.own && b > 2
  }

  lemma FrameAppendedDiskAt(disk: seq<Block>, x: nat, frames: seq<nat>, f: nat, content: seq<nat>, name: string)
    requires x != f && f !in frames && x !in frames
    requires frames != [] ==> At(disk, LastFrame(x, frames)).FrameBlock?
    ensures var d, last := FrameAppendedDisk(disk, x, frames, f, content, name), LastFrame(x, frames);
      && Agree(disk, d, {x, f, last})
      && At(d, f) == FrameBlock(Frame(0, content))
      && At(d, x) == InodeBlock(Inode(FRAME_SIZE * (|frames| + 1), First(frames + [f]), name))
      && (frames != [] ==> At(d, last) == FrameBlock(AsFrame(At(disk, last)).(next := f)))
  {
    var last := LastFrame(x, frames);
    var d1 := if frames == [] then disk else Put(disk, last, FrameBlock(AsFrame(At(disk, last)).(next := f)));
    var d2 := Put(d1, f, FrameBlock(Frame(0, content)));
    var d := FrameAppendedDisk(disk, x, frames, f, content, name);
    assert Agree(disk, d1, {last});
    AgreeTransitive(disk, d1, d2, {last}, {f});
    AgreeTransitive(disk, d2, d, {last} + {f}, {x});
    assert {last} + {f} + {x} == {x, f, last};
    assert At(d2, f) == At(d, f);
    if frames != [] {
      assert last != f && last != x;
      assert At(d1, last) == At(d2, last) == At(d, last);
    }
  }

  lemma ChainFacts(v: Vol, x: nat)
    requires Inv(v) && x in v.chain
    ensures x in v.own && InodeOk(v, x) && x !in v.chain[x] && x > 2
    ensures forall f :: f in v.chain[x] ==> f in v.own
    ensures var last := LastFrame(x, v.chain[x]); last in v.own && FileOf(v, last) == x
    ensures v.chain[x] != [] ==> var last := LastFrame(x, v.chain[x]); FrameOk(v, last) && last != x
  {
    assert NodeOk(v, x);
    if v.chain[x] != [] {
      assert NodeOk(v, LastFrame(x, v.chain[x]));
    }
    forall k: nat | k < |v.chain[x]| ensures v.chain[x][k] != x && v.chain[x][k] in v.own {
    }
  }

  lemma FrameAppendedOwners(v: Vol, x: nat, f: nat, content: seq<nat>)
    requires x in v.chain && FreshFrame(v, f, content)
    ensures var v' := FrameAppended(v, x, f, content);
      && (forall b :: b in v.own ==> b in v'.own && v'.own[b] == v.own[b])
      && f in v'.own && v'.own[f] == FrameOwner(x, |v.chain[x]|)
      && (forall b :: b in v'.own ==> b in v.own || b == f || b in content)
      && (forall c: nat {:trigger content[c]} :: c < |content| ==>
            content[c] in v'.own && v'.own[content[c]] == ContentOwner(f, c))
  {
    ContentOwnersAt(f, content);
  }

  lemma FrameAppendedKept(v: Vol, x: nat, f: nat, content: seq<nat>)
    requires Inv(v) && x in v.chain && FreshFrame(v, f, content)
    ensures Kept(v, FrameAppended(v, x, f, content), {x, f, LastFrame(x, v.chain[x])}, {})
  {
    ChainFacts(v, x);
    FrameAppendedDiskAt(v.disk, x, v.chain[x], f, content, FileName(v, x));
    FrameAppendedOwners(v, x, f, content);
  }

  lemma FrameAppendedNode(v: Vol, v': Vol, x: nat, f: nat, last: nat, b: nat)
    requires x in v.own && InodeOk(v, x) && last == LastFrame(x, v.chain[x]) && (last != x ==> last in v.own && FrameOk(v, last))
    requires Kept(v, v', {x, f, last}, {}) && f !in v.own && x !in v.chain[x] && b in v'.used
    requires f in v'.own && v'.own[f] == FrameOwner(x, |v.chain[x]|)
    requires x in v'.chain && v'.chain[x] == v.chain[x] + [f]
    requires At(v'.disk, x) == InodeBlock(Inode(FRAME_SIZE * (|v.chain[x]| + 1), First(v'.chain[x]), FileName(v, x)))
    requires last != x ==> At(v'.disk, last) == FrameBlock(At(v.disk, last).frame.(next := f))
    requires b in v.own && NodeOk(v, b)
    ensures b in v'.own && NodeOk(v', b)
  {
    if b == x {
      assert InodeOk(v', x);
    } else if b == last {
      assert FrameOk(v', last);
    } else {
      if v.own[b] == DirOwner || Parent(v.own[b]) !in {x, last} {
        assert v.own[b] != DirOwner ==> Parent(v.own[b]) in v.own;
        ParentUntouched(v, v', {x, f, last}, {}, b);
      }
      NothingGone(v, b);
      NodeKept(v, v', {x, f, last}, {}, b);
    }
  }

  /** The new frame and its content are well linked. */
  lemma NewFrameNode(v: Vol, x: nat, f: nat, content: seq<nat>, b: nat)
    requires Inv(v) && x in v.chain && FreshFrame(v, f, content) && (b == f || b in content)
    ensures var v' := FrameAppended(v, x, f, content); b in v'.own && NodeOk(v', b)
  {
    hide Inv, ContentOwners;
    var v' := FrameAppended(v, x, f, content);
    ChainFacts(v, x);
    FrameAppendedOwners(v, x, f, content);
    FrameAppendedDiskAt(v.disk, x, v.chain[x], f, content, FileName(v, x));
    if b == f {
      assert FrameOk(v', f);
    } else {
      var c: nat :| c < |content| && content[c] == b;
      assert ContentOk(v', b);
    }
  }

  lemma OldNode(v: Vol, x: nat, f: nat, content: seq<nat>, b: nat)
    requires Inv(v) && x in v.chain && FreshFrame(v, f, content) && b in v.own
    ensures var v' := FrameAppended(v, x, f, content); b in v'.own && NodeOk(v', b)
  {
    var v', last := FrameAppended(v, x, f, content), LastFrame(x, v.chain[x]);
    assert NodeOk(v, b);
    hide Inv, ContentOwners, FreshFrame;
    ChainFacts(v, x);
    FrameAppendedKept(v, x, f, content);
    FrameAppendedOwners(v, x, f, content);
    FrameAppendedDiskAt(v.disk, x, v.chain[x], f, content, FileName(v, x));
    FrameAppendedNode(v, v', x, f, last, b);
  }

  lemma FrameAppendedNodes(v: Vol, x: nat, f: nat, content: seq<nat>)
    requires Inv(v) && x in v.chain && FreshFrame(v, f, content)
    ensures var v' := FrameAppended(v, x, f, content); forall b :: b in v'.own ==> NodeOk(v', b)
  {
    hide Inv, NodeOk, FrameAppended, FreshFrame;
    var v' := FrameAppended(v, x, f, content);
    FrameAppendedOwners(v, x, f, content);
    forall b | b in v'.own ensures NodeOk(v', b) {
      if b in v.own {
        OldNode(v, x, f, content, b);
      } else {
        NewFrameNode(v, x, f, content, b);
      }
    }
  }

  lemma FrameAppendedChain(v: Vol, v': Vol, x: nat, f: nat, last: nat)
    requires DirChainOk(v) && Kept(v, v', {x, f, last}, {}) && v'.dirs == v.dirs
    requires x in v.own && v.own[x] != DirOwner && last in v.own && v.own[last] != DirOwner && f !in v.own
    ensures DirChainOk(v') && Dirs(v') == Dirs(v)
  {
    DirsAside(v, {x, f, last});
    DirChainKept(v, v', {x, f, last}, {});
  }

  lemma FrameAppendedNames(v: Vol, v': Vol, x: nat, f: nat, last: nat)
    requires FileNamesOk(v) && Kept(v, v', {x, f, last}, {}) && v'.chain.Keys <= v.chain.Keys
    requires forall y :: y in v.chain ==> y in v.own && v.own[y].InodeOwner?
    requires last in v.own && (last != x ==> v.own[last].FrameOwner?) && f !in v.own
    requires FileName(v', x) == FileName(v, x)
    ensures FileNamesOk(v')
  {
    FileNamesSame(v, v');
  }

  lemma FrameAppendedRest(v: Vol, x: nat, f: nat, content: seq<nat>)
    requires Inv(v) && x in v.chain && FreshFrame(v, f, content)
    ensures var v' := FrameAppended(v, x, f, content);
      DirChainOk(v') && Dirs(v') == Dirs(v) && FileNamesOk(v') && At(v'.disk, 0) == At(v.disk, 0) && |v'.disk| >= |v.disk|
  {
    hide NodeOk, ContentOwners, FrameAppendedDisk, Dirs;
    var v', last := FrameAppended(v, x, f, content), LastFrame(x, v.chain[x]);
    OwnedAreUsed(v);
    ChainFacts(v, x);
    FrameAppendedKept(v, x, f, content);
    FrameAppendedDiskAt(v.disk, x, v.chain[x], f, content, FileName(v, x));
    FrameAppendedChain(v, v', x, f, last);
    FrameAppendedNames(v, v', x, f, last);
  }

  /** resize's change to the disk gives file x one more frame. */
  lemma FrameAppendedInv(v: Vol, x: nat, f: nat, content: seq<nat>)
    requires Inv(v) && x in v.chain && FreshFrame(v, f, content)
    ensures Inv(FrameAppended(v, x, f, content))
    ensures Dirs(FrameAppended(v, x, f, content)) == Dirs(v)
  {
    hide NodeOk, ContentOwners, FrameAppendedDisk, Dirs, DirChainOk, FileNamesOk, UsedOk;
    FrameAppendedNodes(v, x, f, content);
    FrameAppendedRest(v, x, f, content);
    FrameAppendedOwners(v, x, f, content);
    ChainFacts(v, x);
  }

  /** Both disks hold frames there, with the same content ids. */
  ghost predicate SameFrames(d: seq<Block>, d': seq<Block>, frames: seq<nat>) {
    forall k: nat {:trigger frames[k]} :: k < |frames| ==>
      && At(d, frames[k]).FrameBlock? && At(d', frames[k]).FrameBlock?
      && At(d', frames[k]).frame.content == At(d, frames[k]).frame.content
      && |At(d, frames[k]).frame.content| == FRAME_COUNT
  }

  lemma FrameAppendedFrames(v: Vol, x: nat, f: nat, content: seq<nat>)
    requires Inv(v) && x in v.chain && FreshFrame(v, f, content)
    ensures SameFrames(v.disk, FrameAppended(v, x, f, content).disk, v.chain[x])
  {
    var frames := v.chain[x];
    var d := FrameAppended(v, x, f, content).disk;
    ChainFacts(v, x);
    FrameAppendedDiskAt(v.disk, x, frames, f, content, FileName(v, x));
    forall k: nat | k < |frames|
      ensures At(v.disk, frames[k]).FrameBlock? && |At(v.disk, frames[k]).frame.content| == FRAME_COUNT
      ensures At(d, frames[k]).FrameBlock? && At(d, frames[k]).frame.content == At(v.disk, frames[k]).frame.content
    {
      assert frames[k] in v.own;
      assert NodeOk(v, frames[k]);
      if frames[k] != LastFrame(x, frames) {
        assert At(d, frames[k]) == At(v.disk, frames[k]);
      }
    }
  }

  lemma IdAtAppended(d: seq<Block>, d': seq<Block>, frames: seq<nat>, f: nat, content: seq<nat>, n: nat)
    requires SameFrames(d, d', frames) && At(d', f) == FrameBlock(Frame(0, content)) && |content| == FRAME_COUNT
    requires n < FRAME_COUNT * (|frames| + 1)
    ensures IdAt(d', frames + [f], n)
         == if n < FRAME_COUNT * |frames| then IdAt(d, frames, n) else content[n - FRAME_COUNT * |frames|]
  {
    var k := n / FRAME_COUNT;
    if k < |frames| {
      assert (frames + [f])[k] == frames[k];
    } else {
      assert k == |frames|;
    }
  }

  /** The bytes the file had stay its first bytes. */
  lemma FrameAppendedData(v: Vol, x: nat, f: nat, content: seq<nat>)
    requires Inv(v) && x in v.chain && FreshFrame(v, f, content)
    ensures var d := FrameAppended(v, x, f, content).disk;
      Data(v.disk, v.chain[x]) <= Data(d, v.chain[x] + [f])
  {
    var frames := v.chain[x];
    var d := FrameAppended(v, x, f, content).disk;
    FrameAppendedFrames(v, x, f, content);
    ChainFacts(v, x);
    FrameAppendedDiskAt(v.disk, x, frames, f, content, FileName(v, x));
    forall p: nat | p < FRAME_SIZE * |frames|
      ensures Data(d, frames + [f])[p] == Data(v.disk, frames)[p]
    {
      var n := p / BLOCK_SIZE;
      IdAtAppended(v.disk, d, frames, f, content, n);
      ContentUntouchedByAppend(v, x, f, content, n);
    }
  }

  lemma ContentUntouchedByAppend(v: Vol, x: nat, f: nat, content: seq<nat>, n: nat)
    requires Inv(v) && x in v.chain && FreshFrame(v, f, content) && n < FRAME_COUNT * |v.chain[x]|
    ensures var id := IdAt(v.disk, v.chain[x], n); At(FrameAppended(v, x, f, content).disk, id) == At(v.disk, id)
  {
    ChainFacts(v, x);
    ContentOwned(v, x, n);
    FrameAppendedDiskAt(v.disk, x, v.chain[x], f, content, FileName(v, x));
  }

  lemma FrameAppendedOther(v: Vol, x: nat, f: nat, content: seq<nat>, y: nat)
    requires Inv(v) && x in v.chain && FreshFrame(v, f, content) && y in v.chain && y != x
    ensures ViewOf(FrameAppended(v, x, f, content), y) == ViewOf(v, y)
  {
    hide FrameAppended, FreshFrame;
    ChainFacts(v, x);
    FrameAppendedKept(v, x, f, content);
    FrameAppendedOwners(v, x, f, content);
    assert y in v.own;
    FileUntouched(v, FrameAppended(v, x, f, content), {x, f, LastFrame(x, v.chain[x])}, y);
  }

  lemma FrameAppendedSelf(v: Vol, x: nat, f: nat, content: seq<nat>)
    requires Inv(v) && x in v.chain && FreshFrame(v, f, content)
    ensures var v' := FrameAppended(v, x, f, content);
      ViewOf(v', x) == ViewOf(v, x).(data := Data(v'.disk, v.chain[x] + [f]))
  {
    ChainFacts(v, x);
    FrameAppendedOwners(v, x, f, content);
    FrameAppendedDiskAt(v.disk, x, v.chain[x], f, content, FileName(v, x));
  }

  lemma FrameAppendedFiles(v: Vol, x: nat, f: nat, content: seq<nat>)
    requires Inv(v) && x in v.chain && FreshFrame(v, f, content)
    ensures var v' := FrameAppended(v, x, f, content);
      Files(v') == Files(v)[x := Files(v)[x].(data := Data(v'.disk, v.chain[x] + [f]))]
  {
    var v' := FrameAppended(v, x, f, content);
    FrameAppendedSelf(v, x, f, content);
    forall y | y in v.chain && y != x ensures ViewOf(v', y) == ViewOf(v, y) {
      FrameAppendedOther(v, x, f, content, y);
    }
    FilesUpdated(v, v', x, Files(v)[x].(data := Data(v'.disk, v.chain[x] + [f])));
  }

  // ----- overwriting content

  /** Overwriting the n-th content block of file x changes block n of its data
      and nothing else that any user can see. */
  lemma ContentWrittenOk(v: Vol, x: nat, n: nat, bytes: seq<Byte>)
    requires Inv(v) && x in v.chain && n < FRAME_COUNT * |v.chain[x]| && |bytes| == BLOCK_SIZE
    ensures var id := IdAt(v.disk, v.chain[x], n);
      var v' := v.(disk := Put(v.disk, id, DataBlock(bytes)));
      && Inv(v') && Dirs(v') == Dirs(v)
      && Files(v') == Files(v)[x := Files(v)[x].(data := Data(v'.disk, v.chain[x]))]
  {
    var id := IdAt(v.disk, v.chain[x], n);
    var v' := v.(disk := Put(v.disk, id, DataBlock(bytes)));
    ContentOwned(v, x, n);
    assert NodeOk(v, id);
    forall b | b in v.own ensures b in v.used {
      assert NodeOk(v, b);
    }
    ContentChanged(v, v'.disk, v.used, {id});
    FileBlocks(v, x);
    forall y | y in v.chain && y != x ensures ViewOf(v', y) == ViewOf(v, y) {
      FileUntouched(v, v', {id}, y);
    }
    FilesUpdated(v, v', x, Files(v)[x].(data := Data(v'.disk, v.chain[x])));
  }

  /** Overwriting a content block leaves the ids of all content blocks alone. */
  lemma ContentWrittenId(v: Vol, x: nat, n: nat, bytes: seq<Byte>, m: nat)
    requires Inv(v) && x in v.chain && n < FRAME_COUNT * |v.chain[x]| && m < FRAME_COUNT * |v.chain[x]|
    ensures var id := IdAt(v.disk, v.chain[x], n);
      var d := Put(v.disk, id, DataBlock(bytes));
      && IdAt(d, v.chain[x], m) == IdAt(v.disk, v.chain[x], m)
      && (m != n ==> At(d, IdAt(v.disk, v.chain[x], m)) == At(v.disk, IdAt(v.disk, v.chain[x], m)))
  {
    var id := IdAt(v.disk, v.chain[x], n);
    ContentOwned(v, x, n);
    ChainFacts(v, x);
    assert v.chain[x][m / FRAME_COUNT] in v.own;
    FrameIsNotContent(v, x, m / FRAME_COUNT);
    if m != n && IdAt(v.disk, v.chain[x], m) == id {
      ContentDisjoint(v, x, x, m, n);
    }
  }

  lemma FrameIsNotContent(v: Vol, x: nat, k: nat)
    requires Inv(v) && x in v.chain && k < |v.chain[x]|
    ensures v.chain[x][k] in v.own && v.own[v.chain[x][k]].FrameOwner?
  {
    assert NodeOk(v, x);
  }

  /** Byte p of a file lies in block p / 512, at offset p % 512. */
  lemma ByteInBlock(p: nat, n: nat)
    ensures p / BLOCK_SIZE == n <==> BLOCK_SIZE * n <= p < BLOCK_SIZE * (n + 1)
    ensures p / BLOCK_SIZE == n ==> p % BLOCK_SIZE == p - BLOCK_SIZE * n
  {
  }

  /** Byte by byte, what overwriting the n-th content block does to the data. */
  lemma ContentWrittenData(v: Vol, x: nat, n: nat, bytes: seq<Byte>, p: nat)
    requires Inv(v) && x in v.chain && n < FRAME_COUNT * |v.chain[x]| && |bytes| == BLOCK_SIZE
    requires p < FRAME_SIZE * |v.chain[x]|
    ensures var d := Put(v.disk, IdAt(v.disk, v.chain[x], n), DataBlock(bytes));
      Data(d, v.chain[x])[p] ==
        (if BLOCK_SIZE * n <= p < BLOCK_SIZE * (n + 1) then bytes[p - BLOCK_SIZE * n] else Data(v.disk, v.chain[x])[p])
  {
    ByteInBlock(p, n);
    ContentWrittenId(v, x, n, bytes, p / BLOCK_SIZE);
  }
}
