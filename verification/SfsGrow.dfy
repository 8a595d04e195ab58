/** Growing a file: the frames that sfs_resize_file allocates and links one by
    one.  While it runs, the inode on disk lags behind; the proofs follow a
    volume w that is the disk with the inode already brought up to date. */
module SfsGrow {
  import opened DiskBytes
  import opened SfsLayout
  import opened SfsVolume
  import opened SfsVolumeLemmas
  import opened SfsFileLemmas
  import opened SfsSteps

  /** Two disks of the same length that may differ only at the blocks in s. */
  ghost predicate Differ(d: seq<Block>, d': seq<Block>, s: set<nat>) {
    |d| == |d'| && forall b: nat {:trigger At(d', b)} :: b !in s ==> At(d', b) == At(d, b)
  }

  lemma DifferPut(d: seq<Block>, d': seq<Block>, s: set<nat>, b: nat, block: Block)
    requires Differ(d, d', s)
    ensures Differ(Put(d, b, block), Put(d', b, block), s)
  {
    forall c: nat | c !in s ensures At(Put(d', b, block), c) == At(Put(d, b, block), c) {
      if c != b {
        assert At(d', c) == At(d, c);
      }
    }
  }

  lemma SameEverywhere(d: seq<Block>, d': seq<Block>)
    requires |d| == |d'| && forall b: nat {:trigger At(d', b)} :: At(d', b) == At(d, b)
    ensures d == d'
  {
    forall b: nat | b < |d| ensures d[b] == d'[b] {
      assert At(d', b) == At(d, b);
    }
  }

  ghost predicate Ascending(s: seq<nat>) {
    forall i: nat, j: nat :: i < j < |s| ==> s[i] < s[j]
  }

  /** v is v0 after taking the blocks in bids, which belong to nothing yet. */
  ghost predicate ManyAllocated(v0: Vol, v: Vol, bids: seq<nat>) {
    && Inv(v) && NoDuplicates(bids) && |v.disk| == |v0.disk|
    && (forall b :: b in bids ==> b > 2 && b !in v.own && b !in v0.used)
    && Ascending(bids) && (forall b :: b in bids ==> Lowest(v.used, b))
    && v.used == v0.used + SetOf(bids) && |v.used| == |v0.used| + |bids|
    && v.dirs == v0.dirs && v.chain == v0.chain && v.own == v0.own
    && Agree(v0.disk, v.disk, {1})
    && Dirs(v) == Dirs(v0) && Files(v) == Files(v0) && AllStoredKept(v0, v)
  }

  lemma NoneAllocated(v: Vol)
    requires Inv(v)
    ensures ManyAllocated(v, v, [])
  {
    assert SetOf([]) == {};
    assert v.used + SetOf([]) == v.used;
  }

  lemma OneMoreId(used0: set<nat>, used: set<nat>, bids: seq<nat>, b: nat)
    requires NoDuplicates(bids) && used == used0 + SetOf(bids) && b !in used
    requires b >= 1 && Ascending(bids) && Lowest(used, b) && forall c :: c in bids ==> Lowest(used, c)
    ensures NoDuplicates(bids + [b]) && used + {b} == used0 + SetOf(bids + [b])
    ensures Ascending(bids + [b]) && forall c :: c in bids + [b] ==> Lowest(used + {b}, c)
  {
    forall c | c in bids ensures c < b {
      assert c in SetOf(bids);
      assert c in used && Lowest(used, c);
    }
    forall i: nat | i < |bids| ensures (bids + [b])[i] < b {
      assert bids[i] in bids;
    }
    forall c | c in bids + [b] ensures Lowest(used + {b}, c) {
      assert c == b || c in bids;
    }
    assert SetOf(bids + [b]) == SetOf(bids) + {b};
    assert b in bids ==> b in SetOf(bids);
  }

  lemma OneMoreAllocated(v0: Vol, v: Vol, bids: seq<nat>, v': Vol, b: nat)
    requires ManyAllocated(v0, v, bids) && NewlyAllocated(v, v', b) && |v'.used| == |v.used| + 1
    ensures ManyAllocated(v0, v', bids + [b])
  {
    hide Inv, Ascending, Lowest, StoredBytes;
    OneMoreId(v0.used, v.used, bids, b);
    AgreeTransitive(v0.disk, v.disk, v'.disk, {1}, {1});
    assert {1} + {1} == {1};
    AllTwice(v0, v, v');
  }

  /** w is v0 after file x grew by n frames; what x held stays its beginning. */
  ghost predicate Grown(v0: Vol, w: Vol, x: nat, n: nat)
    requires x in v0.chain
  {
    && Inv(w) && x in w.chain
    && |w.chain[x]| == |v0.chain[x]| + n && v0.chain[x] <= w.chain[x]
    && w.chain == v0.chain[x := w.chain[x]] && w.dirs == v0.dirs
    && v0.used <= w.used && |v0.disk| <= |w.disk|
    && Dirs(w) == Dirs(v0)
    && Files(w) == Files(v0)[x := Files(v0)[x].(data := Data(w.disk, w.chain[x]))]
    && Data(v0.disk, v0.chain[x]) <= Data(w.disk, w.chain[x])
    && SameIds(v0.disk, w.disk, v0.chain[x], w.chain[x])
    && StoredKept(v0, w, x)
  }

  /** The flattened content ids of the old chain start those of the new one. */
  ghost predicate SameIds(d: seq<Block>, d': seq<Block>, frames: seq<nat>, frames': seq<nat>) {
    forall m: nat :: m < FRAME_COUNT * |frames| ==> IdAt(d', frames', m) == IdAt(d, frames, m)
  }

  /** The blocks bids[j..] are allocated but belong to nothing. */
  ghost predicate Reserved(w: Vol, bids: seq<nat>, j: nat) {
    NoDuplicates(bids) && forall k: nat :: j <= k < |bids| ==> bids[k] in w.used && bids[k] !in w.own && bids[k] > 2
  }

  /** Taking blocks for content leaves the file view and the reserve as they were. */
  lemma GrownAllocated(v0: Vol, w: Vol, w': Vol, x: nat, n: nat, bids: seq<nat>, j: nat, content: seq<nat>)
    requires x in v0.chain && Grown(v0, w, x, n) && Reserved(w, bids, j) && ManyAllocated(w, w', content)
    ensures Grown(v0, w', x, n) && Reserved(w', bids, j)
    ensures forall k: nat :: j <= k < |bids| ==> bids[k] !in content
  {
    assert ViewOf(w, x) == Files(w)[x] && ViewOf(w', x) == Files(w')[x];
    AllAfterStored(v0, w, w', x);
    forall m: nat | m < FRAME_COUNT * |v0.chain[x]|
      ensures IdAt(w'.disk, w'.chain[x], m) == IdAt(v0.disk, v0.chain[x], m)
    {
      assert IdAt(w.disk, w.chain[x], m) == IdAt(v0.disk, v0.chain[x], m);
      IdsAside(w, w', x, m);
    }
  }

  lemma IdsAside(w: Vol, w': Vol, x: nat, m: nat)
    requires Inv(w) && Agree(w.disk, w'.disk, {1}) && x in w.chain && x in w'.chain && w'.chain[x] == w.chain[x]
    requires m < FRAME_COUNT * |w.chain[x]|
    ensures IdAt(w'.disk, w'.chain[x], m) == IdAt(w.disk, w.chain[x], m)
  {
    assert NodeOk(w, x);
    var f := w.chain[x][m / FRAME_COUNT];
    assert f in w.own && NodeOk(w, f);
    assert At(w'.disk, f) == At(w.disk, f);
  }

  lemma GrownData(v0: Vol, w: Vol, d: seq<Block>, x: nat, frames: seq<nat>)
    requires x in v0.chain && x in w.chain && Files(w) == Files(v0)[x := Files(v0)[x].(data := Data(w.disk, w.chain[x]))]
    requires Data(v0.disk, v0.chain[x]) <= Data(w.disk, w.chain[x]) <= Data(d, frames)
    ensures Files(w)[x := Files(w)[x].(data := Data(d, frames))] == Files(v0)[x := Files(v0)[x].(data := Data(d, frames))]
    ensures Data(v0.disk, v0.chain[x]) <= Data(d, frames)
  {
  }

  lemma GrownView(v0: Vol, w: Vol, x: nat, n: nat, f: nat, content: seq<nat>)
    requires x in v0.chain && Grown(v0, w, x, n) && FreshFrame(w, f, content)
    ensures var w' := FrameAppended(w, x, f, content);
      && Files(w') == Files(v0)[x := Files(v0)[x].(data := Data(w'.disk, w.chain[x] + [f]))]
      && Data(v0.disk, v0.chain[x]) <= Data(w'.disk, w.chain[x] + [f])
  {
    FrameAppendedFiles(w, x, f, content);
    FrameAppendedData(w, x, f, content);
    GrownData(v0, w, FrameAppended(w, x, f, content).disk, x, w.chain[x] + [f]);
  }

  lemma GrownShape(v0: Vol, w: Vol, x: nat, n: nat, f: nat, content: seq<nat>)
    requires x in v0.chain && x in w.chain && |w.chain[x]| == |v0.chain[x]| + n && v0.chain[x] <= w.chain[x]
    requires w.chain == v0.chain[x := w.chain[x]] && w.dirs == v0.dirs && v0.used <= w.used
    ensures var w' := FrameAppended(w, x, f, content);
      && x in w'.chain && w'.chain[x] == w.chain[x] + [f]
      && |w'.chain[x]| == |v0.chain[x]| + n + 1 && v0.chain[x] <= w'.chain[x]
      && w'.chain == v0.chain[x := w'.chain[x]] && w'.dirs == v0.dirs && v0.used <= w'.used
      && |w.disk| <= |w'.disk|
  {
  }

  lemma GrownStored(v0: Vol, w: Vol, x: nat, f: nat, content: seq<nat>)
    requires Inv(w) && x in w.chain && FreshFrame(w, f, content) && StoredKept(v0, w, x) && v0.chain.Keys <= w.chain.Keys
    ensures StoredKept(v0, FrameAppended(w, x, f, content), x)
  {
    hide FrameAppended;
    ChainFacts(w, x);
    FrameAppendedKept(w, x, f, content);
    LastFrameOwner(w, x);
    AllStoredStays(w, FrameAppended(w, x, f, content), {x, f, LastFrame(x, w.chain[x])}, x);
    StoredTwice(v0, w, FrameAppended(w, x, f, content), x);
  }

  lemma LastFrameOwner(w: Vol, x: nat)
    requires Inv(w) && x in w.chain
    ensures var last := LastFrame(x, w.chain[x]);
      last in w.own && (w.own[last].FrameOwner? ==> w.own[last].inode == x)
  {
    assert NodeOk(w, x);
  }

  /** Linking the next reserved frame makes the file one frame longer. */
  lemma GrownAppended(v0: Vol, w: Vol, x: nat, n: nat, f: nat, content: seq<nat>)
    requires x in v0.chain && Grown(v0, w, x, n) && FreshFrame(w, f, content)
    ensures Grown(v0, FrameAppended(w, x, f, content), x, n + 1)
  {
    GrownShape(v0, w, x, n, f, content);
    FrameAppendedInv(w, x, f, content);
    GrownView(v0, w, x, n, f, content);
    FrameAppendedIds(v0, w, x, f, content);
    GrownStored(v0, w, x, f, content);
  }

  lemma FrameAppendedIds(v0: Vol, w: Vol, x: nat, f: nat, content: seq<nat>)
    requires x in v0.chain && Inv(w) && x in w.chain && FreshFrame(w, f, content)
    requires v0.chain[x] <= w.chain[x] && SameIds(v0.disk, w.disk, v0.chain[x], w.chain[x])
    ensures SameIds(v0.disk, FrameAppended(w, x, f, content).disk, v0.chain[x], w.chain[x] + [f])
  {
    var d := FrameAppended(w, x, f, content).disk;
    FrameAppendedFrames(w, x, f, content);
    ChainFacts(w, x);
    FrameAppendedDiskAt(w.disk, x, w.chain[x], f, content, FileName(w, x));
    forall m: nat | m < FRAME_COUNT * |v0.chain[x]|
      ensures IdAt(d, w.chain[x] + [f], m) == IdAt(v0.disk, v0.chain[x], m)
    {
      assert IdAt(w.disk, w.chain[x], m) == IdAt(v0.disk, v0.chain[x], m);
      IdAtAppended(w.disk, d, w.chain[x], f, content, m);
    }
  }

  lemma ReservedAppended(w: Vol, x: nat, bids: seq<nat>, j: nat, content: seq<nat>)
    requires x in w.chain && j < |bids| && Reserved(w, bids, j) && FreshFrame(w, bids[j], content)
    requires forall k: nat :: j <= k < |bids| ==> bids[k] !in content
    ensures Reserved(FrameAppended(w, x, bids[j], content), bids, j + 1)
  {
    FrameAppendedOwners(w, x, bids[j], content);
  }

  /** Growing file x does not disturb the descriptors of other files. */
  lemma FdsAppended(w: Vol, x: nat, f: nat, content: seq<nat>, fds: seq<Fd>)
    requires Inv(w) && x in w.chain && FreshFrame(w, f, content) && FdsOk(w, fds) && !IsOpen(fds, x)
    ensures FdsOk(FrameAppended(w, x, f, content), fds)
  {
    hide FrameAppended;
    var w', last := FrameAppended(w, x, f, content), LastFrame(x, w.chain[x]);
    ChainFacts(w, x);
    FrameAppendedKept(w, x, f, content);
    FrameAppendedOwners(w, x, f, content);
    forall i: nat | i < |fds| && fds[i].valid
      ensures var y := fds[i].inodeBid; y !in {x, f, last} && y in w'.chain && y in w'.own && w'.own[y] == w.own[y]
    {
      assert FdOk(w, fds[i]);
      assert w.own[fds[i].inodeBid].InodeOwner?;
    }
    FdsStay(w, w', fds, {x, f, last});
  }

  // ----- in which order blocks are handed out

  /** The flattened content ids from the n-th on. */
  function IdsFrom(disk: seq<Block>, frames: seq<nat>, n: nat): (r: seq<nat>)
    requires n <= FRAME_COUNT * |frames|
    ensures |r| == FRAME_COUNT * |frames| - n
  {
    seq<nat>(FRAME_COUNT * |frames| - n, m requires 0 <= m < FRAME_COUNT * |frames| - n => IdAt(disk, frames, n + m))
  }

  /** The content ids of file x from frame number k0 on. */
  ghost function NewIds(w: Vol, x: nat, k0: nat): (r: seq<nat>)
    requires x in w.chain && k0 <= |w.chain[x]|
    ensures |r| == FRAME_COUNT * (|w.chain[x]| - k0)
  {
    IdsFrom(w.disk, w.chain[x], FRAME_COUNT * k0)
  }

  /** The frames and then the content ids were taken out of the free ones, always
      the lowest free id first. */
  ghost predicate HandedOut(used0: set<nat>, used: set<nat>, frames: seq<nat>, ids: seq<nat>) {
    && Ascending(ids)
    && (forall b :: b in frames ==> b in used && b !in used0 && Lowest(used, b))
    && (forall b :: b in ids ==> b in used && b !in used0 && Lowest(used, b))
    && (forall a, b :: a in frames && b in ids ==> a < b)
  }

  /** The backing file became longer only by writing one of the blocks. */
  ghost predicate EndsWith(d: seq<Block>, d': seq<Block>, bids: seq<nat>) {
    |d'| == |d| || (|d'| > |d| && |d'| - 1 in bids)
  }

  lemma MoreHandedOut(used0: set<nat>, used: set<nat>, used': set<nat>, frames: seq<nat>, ids: seq<nat>, content: seq<nat>)
    requires HandedOut(used0, used, frames, ids) && used0 <= used && used' == used + SetOf(content)
    requires Ascending(content) && forall b :: b in content ==> b >= 1 && b !in used && Lowest(used', b)
    ensures HandedOut(used0, used', frames, ids + content)
  {
    forall b | b in content ensures b in used' {
      assert b in SetOf(content);
    }
    forall a, b | (a in frames || a in ids) && b in content ensures a < b {
      assert Lowest(used, a) && a in used;
    }
    var all := ids + content;
    forall i: nat, j: nat | i < j < |all| ensures all[i] < all[j] {
      if i < |ids| <= j {
        assert all[i] in ids && all[j] in content;
      }
    }
  }

  lemma NewIdsAppended(w: Vol, x: nat, k0: nat, f: nat, content: seq<nat>)
    requires Inv(w) && x in w.chain && k0 <= |w.chain[x]| && FreshFrame(w, f, content)
    ensures var w' := FrameAppended(w, x, f, content);
      x in w'.chain && k0 <= |w'.chain[x]| && NewIds(w', x, k0) == NewIds(w, x, k0) + content
  {
    hide FrameAppendedDisk, IdAt;
    var w' := FrameAppended(w, x, f, content);
    FrameAppendedFrames(w, x, f, content);
    FrameAppendedAt(w, x, f, content);
    var ids, ids' := NewIds(w, x, k0) + content, NewIds(w', x, k0);
    forall m: nat | m < |ids'| ensures ids'[m] == ids[m] {
      IdAtAppended(w.disk, w'.disk, w.chain[x], f, content, FRAME_COUNT * k0 + m);
    }
  }

  lemma NewIdsAside(w: Vol, w': Vol, x: nat, k0: nat)
    requires Inv(w) && Agree(w.disk, w'.disk, {1}) && x in w.chain && x in w'.chain && w'.chain[x] == w.chain[x]
    requires k0 <= |w.chain[x]|
    ensures NewIds(w', x, k0) == NewIds(w, x, k0)
  {
    forall m: nat | m < FRAME_COUNT * (|w.chain[x]| - k0) ensures NewIds(w', x, k0)[m] == NewIds(w, x, k0)[m] {
      IdsAside(w, w', x, FRAME_COUNT * k0 + m);
    }
  }

  /** How far a resize got: bids[..j] are linked, and every block so far was the
      lowest free one when it was taken. */
  ghost predicate LinkedInOrder(v0: Vol, w: Vol, x: nat, bids: seq<nat>, j: nat) {
    && j <= |bids| && x in v0.chain && x in w.chain && w.chain[x] == v0.chain[x] + bids[..j] && v0.used <= w.used
    && HandedOut(v0.used, w.used, bids, NewIds(w, x, |v0.chain[x]|))
    && EndsWith(v0.disk, w.disk, bids)
  }

  lemma InOrderStep(v0: Vol, w: Vol, w': Vol, x: nat, bids: seq<nat>, j: nat, content: seq<nat>)
    requires Inv(w) && LinkedInOrder(v0, w, x, bids, j) && j < |bids| && ManyAllocated(w, w', content)
    requires FreshFrame(w', bids[j], content)
    ensures x in w'.chain && LinkedInOrder(v0, FrameAppended(w', x, bids[j], content), x, bids, j + 1)
  {
    hide Inv, FreshFrame, HandedOut, NewIds, EndsWith, FrameAppendedDisk;
    assert FrameAppended(w', x, bids[j], content).used == w'.used;
    var k0 := |v0.chain[x]|;
    NewIdsAside(w, w', x, k0);
    NewIdsAppended(w', x, k0, bids[j], content);
    MoreHandedOut(v0.used, w.used, w'.used, bids, NewIds(w, x, k0), content);
    AppendedEnd(w', x, bids[j], content);
    OneMoreLinked(v0.chain[x], bids, j);
    EndMoves(v0.disk, w.disk, FrameAppended(w', x, bids[j], content).disk, bids, j);
  }

  lemma EndMoves(d0: seq<Block>, d: seq<Block>, d': seq<Block>, bids: seq<nat>, j: nat)
    requires EndsWith(d0, d, bids) && j < |bids| && |d'| == LengthWith(d, bids[j])
    ensures EndsWith(d0, d', bids)
  {
  }

  lemma OneMoreLinked(frames: seq<nat>, bids: seq<nat>, j: nat)
    requires j < |bids|
    ensures frames + bids[..j] + [bids[j]] == frames + bids[..j + 1]
  {
  }

  /** Linking a frame writes the frame; the other two blocks were there before. */
  lemma AppendedEnd(w: Vol, x: nat, f: nat, content: seq<nat>)
    requires Inv(w) && x in w.chain && FreshFrame(w, f, content)
    ensures |FrameAppended(w, x, f, content).disk| == LengthWith(w.disk, f)
  {
    ChainFacts(w, x);
    assert At(w.disk, x).InodeBlock? && x < |w.disk|;
    var last := LastFrame(x, w.chain[x]);
    assert last < |w.disk|;
  }

  /** The state of a resize of file x after j of the reserved frames bids are
      linked: w is the disk d with the inode of x brought up to date. */
  ghost predicate Resizing(v0: Vol, w: Vol, d: seq<Block>, x: nat, fds: seq<Fd>, bids: seq<nat>, j: nat) {
    && x in v0.chain && Grown(v0, w, x, j) && Reserved(w, bids, j) && LinkedInOrder(v0, w, x, bids, j)
    && FdsOk(w, fds) && !IsOpen(fds, x)
    && Differ(w.disk, d, {x})
    && |w.used| == |v0.used| + |bids| + FRAME_COUNT * j
  }

  lemma FreshFrameFrom(w: Vol, w': Vol, bids: seq<nat>, j: nat, content: seq<nat>)
    requires ManyAllocated(w, w', content) && |content| == FRAME_COUNT && Reserved(w', bids, j) && j < |bids|
    requires forall k: nat :: j <= k < |bids| ==> bids[k] !in content
    ensures FreshFrame(w', bids[j], content)
  {
    forall b | b in content ensures b in w'.used {
      assert b in SetOf(content);
    }
  }

  /** One round of the resize: content allocated, the frame linked. */
  lemma ResizeStep(v0: Vol, w: Vol, w': Vol, d: seq<Block>, x: nat, fds: seq<Fd>, bids: seq<nat>, j: nat, content: seq<nat>)
    requires x in v0.chain && Grown(v0, w, x, j) && Reserved(w, bids, j) && FdsOk(w, fds) && !IsOpen(fds, x)
    requires |w.used| == |v0.used| + |bids| + FRAME_COUNT * j
    requires j < |bids| && ManyAllocated(w, w', content) && |content| == FRAME_COUNT && LinkedInOrder(v0, w, x, bids, j)
    ensures x in w'.chain && FreshFrame(w', bids[j], content)
    ensures var w2 := FrameAppended(w', x, bids[j], content);
      Differ(w2.disk, d, {x}) ==> Resizing(v0, w2, d, x, fds, bids, j + 1)
  {
    GrownAllocated(v0, w, w', x, j, bids, j, content);
    FreshFrameFrom(w, w', bids, j, content);
    FreemapAside(w, w', fds);
    GrownAppended(v0, w', x, j, bids[j], content);
    InOrderStep(v0, w, w', x, bids, j, content);
    ReservedAppended(w', x, bids, j, content);
    FdsAppended(w', x, bids[j], content, fds);
  }

  /** Writing the first frame: the disk then lacks only the inode update. */
  lemma FirstFrameDiffers(w: Vol, d: seq<Block>, x: nat, f: nat, content: seq<nat>)
    requires Inv(w) && x in w.chain && w.chain[x] == [] && FreshFrame(w, f, content) && Differ(w.disk, d, {x})
    ensures Differ(FrameAppended(w, x, f, content).disk, Put(d, f, FrameBlock(Frame(0, content))), {x})
  {
    ChainFacts(w, x);
    FrameAppendedDiskAt(w.disk, x, [], f, content, FileName(w, x));
    var d', e := FrameAppended(w, x, f, content).disk, Put(d, f, FrameBlock(Frame(0, content)));
    forall b: nat | b !in {x} ensures At(e, b) == At(d', b) {
      if b != f {
        assert At(d, b) == At(w.disk, b);
      }
    }
  }

  /** Writing a later frame, after its predecessor was linked to it. */
  lemma NextFrameDiffers(w: Vol, d: seq<Block>, x: nat, f: nat, content: seq<nat>)
    requires Inv(w) && x in w.chain && w.chain[x] != [] && FreshFrame(w, f, content)
    requires Differ(w.disk, d, {x, LastFrame(x, w.chain[x])})
    requires At(d, LastFrame(x, w.chain[x])) == FrameBlock(AsFrame(At(w.disk, LastFrame(x, w.chain[x]))).(next := f))
    ensures Differ(FrameAppended(w, x, f, content).disk, Put(d, f, FrameBlock(Frame(0, content))), {x})
  {
    ChainFacts(w, x);
    var last := LastFrame(x, w.chain[x]);
    FrameAppendedDiskAt(w.disk, x, w.chain[x], f, content, FileName(w, x));
    var d', e := FrameAppended(w, x, f, content).disk, Put(d, f, FrameBlock(Frame(0, content)));
    forall b: nat | b !in {x} ensures At(e, b) == At(d', b) {
      if b != f && b != last {
        assert At(d, b) == At(w.disk, b);
      }
    }
  }

  /** Writing the inode completes the resize: the disk is the one of w. */
  lemma ResizeDone(w: Vol, d: seq<Block>, x: nat)
    requires Inv(w) && x in w.chain && Differ(w.disk, d, {x})
    ensures var inode := Inode(FRAME_SIZE * |w.chain[x]|, First(w.chain[x]), FileName(w, x));
      Put(d, x, InodeBlock(inode)) == w.disk && FdOk(w, Fd(inode, x, DirOf(w, x), 0, true))
  {
    assert NodeOk(w, x);
    var e := Put(d, x, InodeBlock(Inode(FRAME_SIZE * |w.chain[x]|, First(w.chain[x]), FileName(w, x))));
    assert At(w.disk, x).inode == Inode(FRAME_SIZE * |w.chain[x]|, First(w.chain[x]), FileName(w, x));
    forall b: nat ensures At(e, b) == At(w.disk, b) {
      if b != x {
        assert At(d, b) == At(w.disk, b);
      }
    }
    SameEverywhere(w.disk, e);
  }

  /** Frames needed to hold n bytes: the fewest. */
  function FramesFor(n: nat): (r: nat)
    ensures n <= FRAME_SIZE * r < n + FRAME_SIZE
  {
    (n + FRAME_SIZE - 1) / FRAME_SIZE
  }

  /** Extra frames that a file with n frames needs for newSize bytes. */
  function Missing(n: nat, newSize: nat): (r: nat)
    ensures if newSize <= FRAME_SIZE * n then r == 0 else FRAME_SIZE * (n + r - 1) < newSize <= FRAME_SIZE * (n + r)
  {
    if FramesFor(newSize) > n then FramesFor(newSize) - n else 0
  }

  /** The chain of file x changed only if newSize bytes did not fit, and then to the
      fewest frames that hold them. */
  ghost predicate Fitted(v: Vol, v': Vol, x: nat, newSize: nat) {
    && x in v.chain && x in v'.chain
    && if newSize <= FRAME_SIZE * |v.chain[x]| then v'.chain[x] == v.chain[x]
       else FRAME_SIZE * (|v'.chain[x]| - 1) < newSize <= FRAME_SIZE * |v'.chain[x]|
  }

  /** With the descriptor of the file set aside, no descriptor is concerned. */
  lemma FdSetAside(v: Vol, w: Vol, i: nat, fds: seq<Fd>)
    requires Inv(v) && FdsOk(v, fds) && i < |fds| && fds[i].valid
    requires Agree(v.disk, w.disk, {1}) && w.own == v.own && w.chain == v.chain
    ensures var fds' := fds[i := fds[i].(valid := false)]; FdsOk(w, fds') && !IsOpen(fds', fds[i].inodeBid)
  {
    hide Inv;
    var fds' := fds[i := fds[i].(valid := false)];
    assert FdsOk(v, fds');
    FreemapAside(v, w, fds');
    forall k: nat | k < |fds'| && fds'[k].valid ensures fds'[k].inodeBid != fds[i].inodeBid {
      assert k != i;
    }
  }

  lemma GrownByNone(v: Vol, w: Vol, x: nat, bids: seq<nat>)
    requires Inv(v) && x in v.chain && ManyAllocated(v, w, bids)
    ensures Grown(v, w, x, 0) && Reserved(w, bids, 0)
    ensures FileName(w, x) == FileName(v, x) && DirOf(w, x) == DirOf(v, x)
  {
    assert ViewOf(v, x) == Files(v)[x] && ViewOf(w, x) == Files(w)[x];
    forall m: nat | m < FRAME_COUNT * |v.chain[x]|
      ensures IdAt(w.disk, w.chain[x], m) == IdAt(v.disk, v.chain[x], m)
    {
      IdsAside(v, w, x, m);
    }
    forall b | b in bids ensures b in w.used {
      assert b in SetOf(bids);
    }
  }

  lemma NoneLinked(v: Vol, w: Vol, x: nat, bids: seq<nat>)
    requires x in v.chain && ManyAllocated(v, w, bids)
    ensures LinkedInOrder(v, w, x, bids, 0)
  {
    hide Inv, Files, AllStoredKept;
    forall b | b in bids ensures b in w.used {
      assert b in SetOf(bids);
    }
    assert NewIds(w, x, |v.chain[x]|) == [] && bids[..0] == [];
  }

  /** The first state of a resize: the frames are reserved, none is linked. */
  lemma ResizeStart(v: Vol, w: Vol, x: nat, i: nat, fds: seq<Fd>, bids: seq<nat>)
    requires Inv(v) && FdsOk(v, fds) && i < |fds| && fds[i].valid && fds[i].inodeBid == x
    requires x in v.chain && ManyAllocated(v, w, bids)
    ensures Resizing(v, w, w.disk, x, fds[i := fds[i].(valid := false)], bids, 0)
    ensures FileName(w, x) == FileName(v, x) && DirOf(w, x) == DirOf(v, x)
  {
    hide Inv, FdsOk, Grown, Reserved, LinkedInOrder, IsOpen;
    FdSetAside(v, w, i, fds);
    GrownByNone(v, w, x, bids);
    NoneLinked(v, w, x, bids);
  }

  lemma GrownNothing(v: Vol, x: nat)
    requires Inv(v) && x in v.chain
    ensures Grown(v, v, x, 0) && InOrder(v, v, x)
  {
    assert Files(v)[x] == ViewOf(v, x);
    assert NewIds(v, x, |v.chain[x]|) == [] && v.chain[x][|v.chain[x]|..] == [];
  }

  lemma FrameAppendedAt(w: Vol, x: nat, f: nat, content: seq<nat>)
    requires Inv(w) && x in w.chain && FreshFrame(w, f, content)
    ensures var w' := FrameAppended(w, x, f, content);
      && At(w'.disk, f) == FrameBlock(Frame(0, content))
      && w'.chain[x] == w.chain[x] + [f] && w'.used == w.used && At(w'.disk, 1) == At(w.disk, 1)
  {
    ChainFacts(w, x);
    OwnedAreUsed(w);
    FrameAppendedDiskAt(w.disk, x, w.chain[x], f, content, FileName(w, x));
  }

  lemma DifferAfter(d: seq<Block>, d': seq<Block>, x: nat, b: nat, block: Block)
    requires Differ(d, d', {x}) && b < |d|
    ensures Differ(d, Put(d', b, block), {x, b})
  {
    forall c: nat | c !in {x, b} ensures At(Put(d', b, block), c) == At(d, c) {
      assert At(d', c) == At(d, c);
    }
  }

  /** The volume with the next reserved frame linked. */
  ghost function Linked(w: Vol, x: nat, f: nat, content: seq<nat>): Vol {
    if x in w.chain then FrameAppended(w, x, f, content) else w
  }

  ghost predicate LinkedTo(w: Vol, w2: Vol, x: nat, f: nat, frame: Frame) {
    && x in w.chain && x in w2.chain && w2.chain[x] == w.chain[x] + [f]
    && (w.chain[x] != [] ==> First(w2.chain[x]) == First(w.chain[x]))
    && LastFrame(x, w2.chain[x]) == f && At(w2.disk, f) == FrameBlock(frame) && frame.next == 0
  }

  /** From dOld to d, blocks were allocated for w1; then the first frame is written. */
  lemma FirstFrameLinked(v: Vol, w: Vol, w1: Vol, dOld: seq<Block>, d: seq<Block>, x: nat, fds: seq<Fd>, bids: seq<nat>, content: seq<nat>)
    requires Resizing(v, w, dOld, x, fds, bids, 0) && bids != [] && w.chain[x] == []
    requires ManyAllocated(w, w1, content) && |content| == FRAME_COUNT && Differ(w1.disk, d, {x})
    ensures var w2 := Linked(w1, x, bids[0], content);
      && Resizing(v, w2, Put(d, bids[0], FrameBlock(Frame(0, content))), x, fds, bids, 1)
      && LinkedTo(w, w2, x, bids[0], Frame(0, content))
      && w2.used == w1.used && bids[0] != 1
  {
    ResizeStep(v, w, w1, d, x, fds, bids, 0, content);
    FirstFrameDiffers(w1, d, x, bids[0], content);
    FrameAppendedAt(w1, x, bids[0], content);
    ResizeStep(v, w, w1, Put(d, bids[0], FrameBlock(Frame(0, content))), x, fds, bids, 0, content);
  }

  lemma LastFrameAside(w: Vol, w1: Vol, x: nat)
    requires Inv(w) && Agree(w.disk, w1.disk, {1}) && x in w.chain && w.chain[x] != []
    ensures At(w1.disk, LastFrame(x, w.chain[x])) == At(w.disk, LastFrame(x, w.chain[x]))
  {
    FrameLink(w, x, |w.chain[x]| - 1);
  }

  /** The same for a later frame, its predecessor already linked to it in d. */
  lemma NextFrameLinked(v: Vol, w: Vol, w1: Vol, dOld: seq<Block>, d: seq<Block>, x: nat, fds: seq<Fd>, bids: seq<nat>, j: nat,
                        content: seq<nat>, last: Frame)
    requires Resizing(v, w, dOld, x, fds, bids, j) && j < |bids| && w.chain[x] != []
    requires At(w.disk, LastFrame(x, w.chain[x])) == FrameBlock(last)
    requires ManyAllocated(w, w1, content) && |content| == FRAME_COUNT
    requires Differ(w1.disk, d, {x, LastFrame(x, w.chain[x])})
    requires At(d, LastFrame(x, w.chain[x])) == FrameBlock(last.(next := bids[j]))
    ensures var w2 := Linked(w1, x, bids[j], content);
      && Resizing(v, w2, Put(d, bids[j], FrameBlock(Frame(0, content))), x, fds, bids, j + 1)
      && LinkedTo(w, w2, x, bids[j], Frame(0, content))
      && w2.used == w1.used && bids[j] != 1
  {
    LastFrameAside(w, w1, x);
    ResizeStep(v, w, w1, d, x, fds, bids, j, content);
    NextFrameDiffers(w1, d, x, bids[j], content);
    FrameAppendedAt(w1, x, bids[j], content);
    ResizeStep(v, w, w1, Put(d, bids[j], FrameBlock(Frame(0, content))), x, fds, bids, j, content);
  }

  lemma FirstIsZero(w: Vol, x: nat)
    requires Inv(w) && x in w.chain
    ensures First(w.chain[x]) == 0 <==> w.chain[x] == []
  {
    if w.chain[x] != [] {
      FrameLink(w, x, 0);
    }
  }

  lemma FdFacts(v: Vol, fds: seq<Fd>, i: nat)
    requires Inv(v) && FdsOk(v, fds) && i < |fds| && fds[i].valid
    ensures var x := fds[i].inodeBid;
      && x in v.chain && FdOk(v, fds[i])
      && fds[i].inode == Inode(FRAME_SIZE * |v.chain[x]|, First(v.chain[x]), FileName(v, x))
      && FramesFor(fds[i].inode.size) == |v.chain[x]|
  {
    assert FdOk(v, fds[i]);
    assert NodeOk(v, fds[i].inodeBid);
  }

  lemma GrownName(v: Vol, w: Vol, d: seq<Block>, x: nat, n: nat)
    requires Inv(v) && x in v.chain && Grown(v, w, x, n) && Differ(w.disk, d, {x})
    ensures FileName(w, x) == FileName(v, x) && DirOf(w, x) == DirOf(v, x) && x > 2
    ensures At(d, 0) == At(v.disk, 0) && |w.chain[x]| == |v.chain[x]| + n && w.dirs == v.dirs
  {
    assert Files(w)[x] == ViewOf(w, x) && Files(v)[x] == ViewOf(v, x);
    ChainFacts(w, x);
    assert At(d, 0) == At(w.disk, 0);
  }

  /** The frames that file x got, and then their content, are the lowest free ids in
      ascending order; the backing file became longer only to hold a frame. */
  ghost predicate InOrder(v: Vol, w: Vol, x: nat) {
    && x in v.chain && x in w.chain && |v.chain[x]| <= |w.chain[x]|
    && var frames := w.chain[x][|v.chain[x]|..];
    && HandedOut(v.used, w.used, frames, NewIds(w, x, |v.chain[x]|))
    && EndsWith(v.disk, w.disk, frames)
  }

  /** All frames of a resize of the file open at descriptor i are linked; only its
      inode on disk d is still the old one. */
  ghost predicate Resized(v: Vol, w: Vol, d: seq<Block>, fds: seq<Fd>, i: nat, n: nat) {
    && i < |fds|
    && var x := fds[i].inodeBid;
    && x in v.chain && Grown(v, w, x, n) && InOrder(v, w, x) && Differ(w.disk, d, {x}) && x > 2
    && DirOf(w, x) == fds[i].dirBid
    && var closed := fds[i := fds[i].(valid := false)];
    && FdsOk(w, closed) && !IsOpen(closed, x)
    && |w.used| == |v.used| + (FRAME_COUNT + 1) * n
  }

  lemma ResizingEnds(v: Vol, w: Vol, d: seq<Block>, fds: seq<Fd>, i: nat, n: nat, bids: seq<nat>)
    requires Inv(v) && FdsOk(v, fds) && i < |fds| && fds[i].valid && |bids| == n
    requires Resizing(v, w, d, fds[i].inodeBid, fds[i := fds[i].(valid := false)], bids, n)
    ensures Resized(v, w, d, fds, i, n) && At(d, 0) == At(v.disk, 0)
    ensures var x := fds[i].inodeBid;
      fds[i].inode.(firstFrame := First(w.chain[x]), size := fds[i].inode.size + FRAME_SIZE * n)
      == Inode(FRAME_SIZE * |w.chain[x]|, First(w.chain[x]), FileName(w, x))
  {
    FdFacts(v, fds, i);
    GrownName(v, w, d, fds[i].inodeBid, n);
    assert bids[..n] == bids;
    assert w.chain[fds[i].inodeBid][|v.chain[fds[i].inodeBid]|..] == bids;
  }
}
