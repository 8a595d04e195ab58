/** Moving bytes between a buffer and the content blocks of a file. */
module SfsTransfer {
  import opened DiskBytes
  import opened SfsLayout
  import opened SfsVolume
  import opened SfsVolumeLemmas
  import opened SfsFileLemmas
  import opened SfsSteps
  import opened SfsGrow

  const CURSOR_LIMIT: nat := 0x1_0000_0000

  /** d is d0 with bytes [from, to) taken from buf, as far as the kept positions
      and the new bytes are concerned. */
  ghost predicate Spliced(d0: seq<Byte>, d: seq<Byte>, kept: set<nat>, buf: seq<Byte>, from: nat, to: nat) {
    && |d| == |d0| && from <= to <= from + |buf| && to <= |d|
    && forall p: nat {:trigger d[p]} :: p < |d| ==>
        if from <= p < to then d[p] == buf[p - from] else p in kept ==> d[p] == d0[p]
  }

  /** The data of file x. */
  function DataOf(v: Vol, x: nat): seq<Byte>
    requires x in v.chain
  {
    Data(v.disk, v.chain[x])
  }

  /** A cursor moved by the given distance: addition of unsigned 32-bit numbers. */
  function Sought(cur: nat, relative: int): (r: nat)
    ensures r < CURSOR_LIMIT && (r - cur - relative) % CURSOR_LIMIT == 0
    ensures 0 <= cur + relative < CURSOR_LIMIT ==> r == cur + relative
  {
    (cur + relative) % CURSOR_LIMIT
  }

  /** From v0 to v only content of file x was written. */
  ghost predicate OnlyContent(v0: Vol, v: Vol, x: nat) {
    && Inv(v) && v == v0.(disk := v.disk) && x in v0.chain
    && |v0.disk| <= |v.disk|
    && Dirs(v) == Dirs(v0)
    && Files(v) == Files(v0)[x := Files(v0)[x].(data := Data(v.disk, v.chain[x]))]
    && (forall n: nat :: n < FRAME_COUNT * |v.chain[x]| ==> IdAt(v.disk, v.chain[x], n) == IdAt(v0.disk, v.chain[x], n))
    && (forall b :: b in v.own && !v.own[b].ContentOwner? ==> At(v.disk, b) == At(v0.disk, b))
    && At(v.disk, 0) == At(v0.disk, 0) && At(v.disk, 1) == At(v0.disk, 1)
    && StoredKept(v0, v, x)
  }

  lemma NoContentYet(v: Vol, x: nat, buf: seq<Byte>, from: nat)
    requires Inv(v) && x in v.chain && from <= FRAME_SIZE * |v.chain[x]|
    ensures PartWritten(v, v, x, buf, from, from)
  {
    assert Files(v)[x] == ViewOf(v, x);
  }

  /** Descriptors do not notice content being written. */
  lemma FdsAfterContent(v0: Vol, v: Vol, x: nat, fds: seq<Fd>)
    requires Inv(v0) && FdsOk(v0, fds) && OnlyContent(v0, v, x)
    ensures FdsOk(v, fds)
  {
    forall i: nat | i < |fds| && fds[i].valid ensures FdOk(v, fds[i]) {
      assert FdOk(v0, fds[i]);
      assert v0.own[fds[i].inodeBid].InodeOwner?;
    }
  }

  /** The volume after the n-th content block of file x was overwritten. */
  function Overwritten(v: Vol, x: nat, n: nat, bytes: seq<Byte>): Vol
    requires x in v.chain
  {
    v.(disk := Put(v.disk, IdAt(v.disk, v.chain[x], n), DataBlock(bytes)))
  }

  lemma OverwrittenIds(v: Vol, x: nat, n: nat, bytes: seq<Byte>)
    requires Inv(v) && x in v.chain && n < FRAME_COUNT * |v.chain[x]| && |bytes| == BLOCK_SIZE
    ensures forall m: nat :: m < FRAME_COUNT * |v.chain[x]| ==>
      IdAt(Overwritten(v, x, n, bytes).disk, v.chain[x], m) == IdAt(v.disk, v.chain[x], m)
  {
    forall m: nat | m < FRAME_COUNT * |v.chain[x]|
      ensures IdAt(Overwritten(v, x, n, bytes).disk, v.chain[x], m) == IdAt(v.disk, v.chain[x], m)
    {
      ContentWrittenId(v, x, n, bytes, m);
    }
  }

  lemma OverwrittenAside(v: Vol, x: nat, n: nat, bytes: seq<Byte>)
    requires Inv(v) && x in v.chain && n < FRAME_COUNT * |v.chain[x]|
    ensures StoredKept(v, Overwritten(v, x, n, bytes), x)
    ensures var v' := Overwritten(v, x, n, bytes);
      && (forall b :: b in v.own && !v.own[b].ContentOwner? ==> At(v'.disk, b) == At(v.disk, b))
      && At(v'.disk, 0) == At(v.disk, 0) && At(v'.disk, 1) == At(v.disk, 1) && |v.disk| <= |v'.disk|
  {
    ContentOwned(v, x, n);
    OwnedAreUsed(v);
    AllStoredStays(v, Overwritten(v, x, n, bytes), {IdAt(v.disk, v.chain[x], n)}, x);
  }

  lemma FilesTwice(v0: Vol, v: Vol, d: seq<Byte>, d': seq<Byte>, x: nat)
    requires x in v0.chain && Files(v) == Files(v0)[x := Files(v0)[x].(data := d)] && x in v.chain
    ensures Files(v)[x := Files(v)[x].(data := d')] == Files(v0)[x := Files(v0)[x].(data := d')]
  {
  }

  /** Writing the n-th content block of x, on top of earlier content writes. */
  lemma ContentStep(v0: Vol, v: Vol, x: nat, n: nat, bytes: seq<Byte>)
    requires OnlyContent(v0, v, x) && n < FRAME_COUNT * |v.chain[x]| && |bytes| == BLOCK_SIZE
    ensures OnlyContent(v0, Overwritten(v, x, n, bytes), x)
  {
    var v' := Overwritten(v, x, n, bytes);
    ContentWrittenOk(v, x, n, bytes);
    OverwrittenIds(v, x, n, bytes);
    OverwrittenAside(v, x, n, bytes);
    FilesTwice(v0, v, Data(v.disk, v.chain[x]), Data(v'.disk, v.chain[x]), x);
    ContentCombined(v0, v, v', x);
  }

  lemma ContentCombined(v0: Vol, v: Vol, v': Vol, x: nat)
    requires OnlyContent(v0, v, x) && Inv(v') && v' == v.(disk := v'.disk) && |v.disk| <= |v'.disk|
    requires Dirs(v') == Dirs(v)
    requires Files(v') == Files(v0)[x := Files(v0)[x].(data := Data(v'.disk, v.chain[x]))]
    requires forall n: nat :: n < FRAME_COUNT * |v.chain[x]| ==> IdAt(v'.disk, v.chain[x], n) == IdAt(v.disk, v.chain[x], n)
    requires forall b :: b in v.own && !v.own[b].ContentOwner? ==> At(v'.disk, b) == At(v.disk, b)
    requires At(v'.disk, 0) == At(v.disk, 0) && At(v'.disk, 1) == At(v.disk, 1) && StoredKept(v, v', x)
    ensures OnlyContent(v0, v', x)
  {
    StoredTwice(v0, v, v', x);
  }

  /** The c bytes of buf that go to the file at cur, when buf[0] goes to from. */
  function Chunk(buf: seq<Byte>, from: nat, cur: nat, c: nat): (r: seq<Byte>)
    requires from <= cur && cur + c <= from + |buf|
    ensures |r| == c
  {
    buf[cur - from..cur - from + c]
  }

  /** One round of sfs_write is well placed: c bytes go to offset off of block n,
      and tmp is that block as read, if it is only partly overwritten. */
  ghost predicate Round(v: Vol, x: nat, buf: seq<Byte>, from: nat, n: nat, off: nat, c: nat, tmp: seq<Byte>) {
    && x in v.chain && n < FRAME_COUNT * |v.chain[x]| && off + c <= BLOCK_SIZE && |tmp| == BLOCK_SIZE
    && var cur := BLOCK_SIZE * n + off;
    && from <= cur && 0 < c && cur + c <= from + |buf|
    && (off == 0 || cur == from)
    && (c == BLOCK_SIZE || BlockRead(v.disk, IdAt(v.disk, v.chain[x], n), tmp))
  }

  /** tmp is what a raw read of block b delivers, if the backing file holds b. */
  ghost predicate BlockRead(disk: seq<Block>, b: nat, tmp: seq<Byte>) {
    b < |disk| ==> tmp == BlockBytes(disk, b)
  }

  /** Overwriting block n of the data by an overlay of c bytes of buf. */
  lemma SpliceData(d0: seq<Byte>, d: seq<Byte>, d': seq<Byte>, kept: set<nat>, buf: seq<Byte>, from: nat,
                   n: nat, off: nat, c: nat, tmp: seq<Byte>)
    requires Spliced(d0, d, kept, buf, from, BLOCK_SIZE * n + off) && |d'| == |d| && |tmp| == BLOCK_SIZE
    requires off + c <= BLOCK_SIZE && BLOCK_SIZE * n + off + c <= from + |buf|
    requires off == 0 || BLOCK_SIZE * n + off == from
    requires BLOCK_SIZE * (n + 1) <= |d|
    requires forall p: nat {:trigger d'[p]} :: p < |d| ==>
      d'[p] == if BLOCK_SIZE * n <= p < BLOCK_SIZE * (n + 1)
               then Overlay(tmp, off, Chunk(buf, from, BLOCK_SIZE * n + off, c))[p - BLOCK_SIZE * n] else d[p]
    requires c == BLOCK_SIZE || forall p: nat :: BLOCK_SIZE * n <= p < BLOCK_SIZE * (n + 1) && p in kept ==>
      tmp[p - BLOCK_SIZE * n] == d[p]
    ensures Spliced(d0, d', kept, buf, from, BLOCK_SIZE * n + off + c)
  {
  }

  /** A read block holds the stored bytes of the file. */
  lemma BlockReadKept(v0: Vol, v: Vol, x: nat, n: nat, tmp: seq<Byte>)
    requires OnlyContent(v0, v, x) && n < FRAME_COUNT * |v.chain[x]| && |tmp| == BLOCK_SIZE
    requires BlockRead(v.disk, IdAt(v.disk, v.chain[x], n), tmp)
    ensures forall p: nat :: BLOCK_SIZE * n <= p < BLOCK_SIZE * (n + 1) && p in StoredBytes(v0, x) ==>
      tmp[p - BLOCK_SIZE * n] == DataOf(v, x)[p]
  {
    forall p: nat | BLOCK_SIZE * n <= p < BLOCK_SIZE * (n + 1) && p in StoredBytes(v0, x)
      ensures tmp[p - BLOCK_SIZE * n] == DataOf(v, x)[p]
    {
      ByteInBlock(p, n);
      assert IdAt(v.disk, v.chain[x], n) == IdAt(v0.disk, v0.chain[x], n);
    }
  }

  lemma OverwrittenData(v: Vol, x: nat, n: nat, bytes: seq<Byte>)
    requires Inv(v) && x in v.chain && n < FRAME_COUNT * |v.chain[x]| && |bytes| == BLOCK_SIZE
    ensures var d, d' := DataOf(v, x), DataOf(Overwritten(v, x, n, bytes), x);
      && |d'| == |d| == FRAME_SIZE * |v.chain[x]|
      && forall p: nat {:trigger d'[p]} :: p < |d| ==>
        d'[p] == if BLOCK_SIZE * n <= p < BLOCK_SIZE * (n + 1) then bytes[p - BLOCK_SIZE * n] else d[p]
  {
    var d, d' := DataOf(v, x), DataOf(Overwritten(v, x, n, bytes), x);
    forall p: nat | p < |d|
      ensures d'[p] == if BLOCK_SIZE * n <= p < BLOCK_SIZE * (n + 1) then bytes[p - BLOCK_SIZE * n] else d[p]
    {
      ContentWrittenData(v, x, n, bytes, p);
    }
  }

  /** The backing file holds bytes [from, to) of file x. */
  ghost predicate Touched(v: Vol, x: nat, from: nat, to: nat) {
    x in v.chain && forall p: nat :: from <= p < to ==> p in StoredBytes(v, x)
  }

  lemma TouchStep(v: Vol, x: nat, n: nat, bytes: seq<Byte>, from: nat, to: nat)
    requires Inv(v) && x in v.chain && n < FRAME_COUNT * |v.chain[x]| && |bytes| == BLOCK_SIZE
    requires Touched(v, x, from, BLOCK_SIZE * n) || BLOCK_SIZE * n <= from
    requires to <= BLOCK_SIZE * (n + 1)
    ensures Touched(Overwritten(v, x, n, bytes), x, from, to)
  {
    var v' := Overwritten(v, x, n, bytes);
    OverwrittenIds(v, x, n, bytes);
    OverwrittenAside(v, x, n, bytes);
    forall p: nat | from <= p < to ensures p in StoredBytes(v', x) {
      if p >= BLOCK_SIZE * n {
        ByteInBlock(p, n);
      } else {
        assert p in StoredBytes(v, x);
      }
    }
  }

  /** The n-th content block of a file holds some of the bytes [from, to). */
  ghost predicate InRange(n: nat, from: nat, to: nat) {
    from / BLOCK_SIZE <= n && BLOCK_SIZE * n < to
  }

  /** The backing file became longer only by writing a content block of the range. */
  ghost predicate ContentEnd(w: Vol, v: Vol, x: nat, from: nat, to: nat) {
    && x in w.chain
    && (|v.disk| == |w.disk| ||
        exists n: nat :: n < FRAME_COUNT * |w.chain[x]| && InRange(n, from, to) && IdAt(w.disk, w.chain[x], n) + 1 == |v.disk|)
  }

  /** The bytes [from, to) of file x are on disk, and nothing else made it longer. */
  ghost predicate Reached(w: Vol, v: Vol, x: nat, from: nat, to: nat) {
    Touched(v, x, from, to) && ContentEnd(w, v, x, from, to)
  }

  /** From w to v, the bytes of buf that belong to [from, to) were written to file x,
      and that is all that changed. */
  ghost predicate PartWritten(w: Vol, v: Vol, x: nat, buf: seq<Byte>, from: nat, to: nat) {
    && x in w.chain && x in v.chain && OnlyContent(w, v, x) && Reached(w, v, x, from, to)
    && Spliced(DataOf(w, x), DataOf(v, x), StoredBytes(w, x), buf, from, to)
  }

  lemma ReachStep(w: Vol, v: Vol, x: nat, n: nat, bytes: seq<Byte>, from: nat, cur: nat, to: nat)
    requires OnlyContent(w, v, x) && n < FRAME_COUNT * |v.chain[x]| && |bytes| == BLOCK_SIZE
    requires Reached(w, v, x, from, cur) && (cur == BLOCK_SIZE * n || cur == from)
    requires from <= cur && BLOCK_SIZE * n <= cur < to <= BLOCK_SIZE * (n + 1)
    ensures Reached(w, Overwritten(v, x, n, bytes), x, from, to)
  {
    TouchStep(v, x, n, bytes, from, to);
    var v' := Overwritten(v, x, n, bytes);
    assert IdAt(v.disk, v.chain[x], n) == IdAt(w.disk, w.chain[x], n);
    if |v'.disk| > |v.disk| {
      assert InRange(n, from, to) && IdAt(w.disk, w.chain[x], n) + 1 == |v'.disk|;
    } else if |v.disk| != |w.disk| {
      var m: nat :| m < FRAME_COUNT * |w.chain[x]| && InRange(m, from, cur) && IdAt(w.disk, w.chain[x], m) + 1 == |v.disk|;
      assert InRange(m, from, to);
    }
  }

  lemma SpliceDataStep(v0: Vol, v: Vol, x: nat, buf: seq<Byte>, from: nat, n: nat, off: nat, c: nat, tmp: seq<Byte>)
    requires OnlyContent(v0, v, x) && Round(v, x, buf, from, n, off, c, tmp)
    requires Spliced(DataOf(v0, x), DataOf(v, x), StoredBytes(v0, x), buf, from, BLOCK_SIZE * n + off)
    ensures var cur := BLOCK_SIZE * n + off;
      var v' := Overwritten(v, x, n, Overlay(tmp, off, Chunk(buf, from, cur, c)));
      Spliced(DataOf(v0, x), DataOf(v', x), StoredBytes(v0, x), buf, from, cur + c)
  {
    var bytes := Overlay(tmp, off, Chunk(buf, from, BLOCK_SIZE * n + off, c));
    var v' := Overwritten(v, x, n, bytes);
    OverwrittenData(v, x, n, bytes);
    if c != BLOCK_SIZE {
      BlockReadKept(v0, v, x, n, tmp);
    }
    SpliceData(DataOf(v0, x), DataOf(v, x), DataOf(v', x), StoredBytes(v0, x), buf, from, n, off, c, tmp);
  }

  /** One round of sfs_write. */
  lemma SpliceStep(v0: Vol, v: Vol, x: nat, buf: seq<Byte>, from: nat, n: nat, off: nat, c: nat, tmp: seq<Byte>)
    requires PartWritten(v0, v, x, buf, from, BLOCK_SIZE * n + off) && Round(v, x, buf, from, n, off, c, tmp)
    ensures var cur := BLOCK_SIZE * n + off;
      var v' := Overwritten(v, x, n, Overlay(tmp, off, Chunk(buf, from, cur, c)));
      PartWritten(v0, v', x, buf, from, cur + c)
  {
    hide OnlyContent;
    var cur := BLOCK_SIZE * n + off;
    var bytes := Overlay(tmp, off, Chunk(buf, from, cur, c));
    ContentStep(v0, v, x, n, bytes);
    ReachStep(v0, v, x, n, bytes, from, cur, cur + c);
    SpliceDataStep(v0, v, x, buf, from, n, off, c, tmp);
  }

  /** d' holds buf at from, and the bytes of d at every other kept position. */
  ghost predicate Rewritten(d: seq<Byte>, d': seq<Byte>, kept: set<nat>, buf: seq<Byte>, from: nat) {
    && |d| <= |d'| && from + |buf| <= |d'|
    && forall p: nat {:trigger d'[p]} :: p < |d'| ==>
        if from <= p < from + |buf| then d'[p] == buf[p - from]
        else p < |d| && p in kept ==> d'[p] == d[p]
  }

  lemma SplicedRewrites(d: seq<Byte>, d1: seq<Byte>, d2: seq<Byte>, kept: set<nat>, kept1: set<nat>, buf: seq<Byte>, from: nat)
    requires d <= d1 && kept <= kept1 && Spliced(d1, d2, kept1, buf, from, from + |buf|)
    ensures Rewritten(d, d2, kept, buf, from)
  {
    forall p: nat | p < |d| ensures d1[p] == d[p] {
    }
  }

  /** From v to v', n frames were added to file x and buf was written to it at
      from; every other byte that the backing file held is as it was, and so is
      everything else that a user can see.  Blocks were taken in order, and the
      backing file became no longer than the blocks written need. */
  ghost predicate FileWritten(v: Vol, v': Vol, x: nat, n: nat, buf: seq<Byte>, from: nat) {
    && x in v.chain && x in v'.chain
    && |v'.chain[x]| == |v.chain[x]| + n && v.chain[x] <= v'.chain[x]
    && v'.chain == v.chain[x := v'.chain[x]] && v'.dirs == v.dirs && v.used <= v'.used
    && Dirs(v') == Dirs(v)
    && Files(v') == Files(v)[x := Files(v)[x].(data := DataOf(v', x))]
    && Rewritten(DataOf(v, x), DataOf(v', x), StoredBytes(v, x), buf, from)
    && Touched(v', x, from, from + |buf|) && StoredBytes(v, x) <= StoredBytes(v', x) && StoredKept(v, v', x)
    && NewBlocksInOrder(v, v', x) && WrittenEnd(v, v', x, from, from + |buf|)
  }

  lemma WrittenFits(v: Vol, v': Vol, x: nat, n: nat, buf: seq<Byte>, from: nat)
    requires FileWritten(v, v', x, n, buf, from) && n == Missing(|v.chain[x]|, from + |buf|)
    ensures Fitted(v, v', x, from + |buf|)
  {
    hide Rewritten, Touched, StoredKept, StoredBytes, NewBlocksInOrder, WrittenEnd;
  }

  /** The new frames, and then their content, are the lowest free ids in ascending order. */
  ghost predicate NewBlocksInOrder(v: Vol, v': Vol, x: nat) {
    && x in v.chain && x in v'.chain && |v.chain[x]| <= |v'.chain[x]|
    && HandedOut(v.used, v'.used, v'.chain[x][|v.chain[x]|..], NewIds(v', x, |v.chain[x]|))
  }

  /** The backing file became longer only by writing a new frame or a content block
      of the range [from, to). */
  ghost predicate WrittenEnd(v: Vol, v': Vol, x: nat, from: nat, to: nat) {
    && x in v.chain && x in v'.chain && |v.chain[x]| <= |v'.chain[x]| && |v.disk| <= |v'.disk|
    && (EndsWith(v.disk, v'.disk, v'.chain[x][|v.chain[x]|..]) ||
        exists n: nat :: n < FRAME_COUNT * |v'.chain[x]| && InRange(n, from, to) && IdAt(v'.disk, v'.chain[x], n) + 1 == |v'.disk|)
  }

  lemma StoredGrows(v: Vol, w: Vol, x: nat)
    requires x in v.chain && x in w.chain && |v.chain[x]| <= |w.chain[x]| && |v.disk| <= |w.disk|
    requires SameIds(v.disk, w.disk, v.chain[x], w.chain[x])
    ensures StoredBytes(v, x) <= StoredBytes(w, x)
  {
  }

  /** From w to v, buf was written to the file of descriptor fd at its cursor. */
  ghost predicate ContentOut(w: Vol, v: Vol, fd: Fd, buf: seq<Byte>) {
    PartWritten(w, v, fd.inodeBid, buf, fd.cur, fd.cur + |buf|)
  }

  lemma FdsAfterOut(w: Vol, v: Vol, fd: Fd, buf: seq<Byte>, fds: seq<Fd>)
    requires Inv(w) && FdsOk(w, fds) && ContentOut(w, v, fd, buf)
    ensures Inv(v) && FdsOk(v, fds) && At(v.disk, 0) == At(w.disk, 0) && At(v.disk, 1) == At(w.disk, 1)
  {
    FdsAfterContent(w, v, fd.inodeBid, fds);
  }

  lemma FdsMoved(v: Vol, fds: seq<Fd>, i: nat, cur: nat)
    requires FdsOk(v, fds) && i < |fds|
    ensures FdsOk(v, fds[i := fds[i].(cur := cur)])
  {
    var fds' := fds[i := fds[i].(cur := cur)];
    forall j: nat | j < |fds'| && fds'[j].valid ensures FdOk(v, fds'[j]) {
      assert FdOk(v, fds[j]);
    }
  }

  lemma TwoUpdates(fds: seq<Fd>, fds1: seq<Fd>, fds2: seq<Fd>, i: nat, cur: nat)
    requires i < |fds| && |fds1| == |fds|
    requires fds1 == fds[i := fds[i].(inode := fds1[i].inode)] && fds2 == fds1[i := fds1[i].(cur := cur)]
    ensures fds2 == fds[i := fds[i].(inode := fds2[i].inode, cur := cur)]
  {
  }

  lemma GrownThenTouched(w: Vol, v': Vol, fd: Fd, buf: seq<Byte>)
    requires ContentOut(w, v', fd, buf)
    ensures var x := fd.inodeBid;
      && x in w.chain && x in v'.chain && v' == w.(disk := v'.disk) && |w.disk| <= |v'.disk| && Dirs(v') == Dirs(w)
      && fd.cur + |buf| <= |DataOf(v', x)| && Touched(v', x, fd.cur, fd.cur + |buf|)
  {
  }

  lemma GrownThenStored(v: Vol, w: Vol, v': Vol, x: nat, n: nat)
    requires x in v.chain && Grown(v, w, x, n) && OnlyContent(w, v', x)
    ensures x in v'.chain && StoredBytes(v, x) <= StoredBytes(w, x) <= StoredBytes(v', x) && StoredKept(v, v', x)
  {
    StoredGrows(v, w, x);
    StoredGrows(w, v', x);
    StoredTwice(v, w, v', x);
  }

  lemma GrownThenData(v: Vol, w: Vol, v': Vol, fd: Fd, n: nat, buf: seq<Byte>)
    requires fd.inodeBid in v.chain && Grown(v, w, fd.inodeBid, n) && ContentOut(w, v', fd, buf)
    requires StoredBytes(v, fd.inodeBid) <= StoredBytes(w, fd.inodeBid)
    ensures var x := fd.inodeBid;
      && Rewritten(DataOf(v, x), DataOf(v', x), StoredBytes(v, x), buf, fd.cur)
      && Files(v') == Files(v)[x := Files(v)[x].(data := DataOf(v', x))]
  {
    hide Files, Inv;
    var x := fd.inodeBid;
    FilesTwice(v, w, DataOf(w, x), DataOf(v', x), x);
    SplicedRewrites(DataOf(v, x), DataOf(w, x), DataOf(v', x), StoredBytes(v, x), StoredBytes(w, x), buf, fd.cur);
  }

  lemma GrownThenEnded(v: Vol, w: Vol, v': Vol, fd: Fd, n: nat, buf: seq<Byte>)
    requires fd.inodeBid in v.chain && InOrder(v, w, fd.inodeBid) && ContentOut(w, v', fd, buf)
    ensures NewBlocksInOrder(v, v', fd.inodeBid) && WrittenEnd(v, v', fd.inodeBid, fd.cur, fd.cur + |buf|)
  {
    hide Inv, Spliced, HandedOut, StoredKept;
    var x := fd.inodeBid;
    assert NewIds(v', x, |v.chain[x]|) == NewIds(w, x, |v.chain[x]|) by {
      forall m: nat | m < |NewIds(w, x, |v.chain[x]|)|
        ensures NewIds(v', x, |v.chain[x]|)[m] == NewIds(w, x, |v.chain[x]|)[m]
      {
        assert IdAt(v'.disk, v'.chain[x], FRAME_COUNT * |v.chain[x]| + m) == IdAt(w.disk, w.chain[x], FRAME_COUNT * |v.chain[x]| + m);
      }
    }
    if |v'.disk| != |w.disk| {
      var m: nat :| m < FRAME_COUNT * |w.chain[x]| && InRange(m, fd.cur, fd.cur + |buf|) && IdAt(w.disk, w.chain[x], m) + 1 == |v'.disk|;
      assert IdAt(v'.disk, v'.chain[x], m) + 1 == |v'.disk|;
    }
  }

  lemma GrownThenWritten(v: Vol, w: Vol, v': Vol, fd: Fd, n: nat, buf: seq<Byte>)
    requires fd.inodeBid in v.chain && Grown(v, w, fd.inodeBid, n) && InOrder(v, w, fd.inodeBid) && ContentOut(w, v', fd, buf)
    ensures FileWritten(v, v', fd.inodeBid, n, buf, fd.cur)
  {
    hide Inv, Spliced, HandedOut, InOrder, OnlyContent, Reached, NewBlocksInOrder, WrittenEnd, Rewritten, StoredBytes, StoredKept;
    GrownThenEnded(v, w, v', fd, n, buf);
    GrownThenTouched(w, v', fd, buf);
    GrownThenStored(v, w, v', fd.inodeBid, n);
    GrownThenData(v, w, v', fd, n, buf);
  }

  /** The first n bytes of buf are bytes [from, from + n) of file x, as far as the
      backing file holds them; the rest of buf is as before. */
  ghost predicate Delivered(v: Vol, x: nat, buf: seq<Byte>, before: seq<Byte>, from: nat, n: nat)
    requires x in v.chain
  {
    && |buf| == |before| && n <= |buf| && from + n <= |DataOf(v, x)|
    && (forall i: nat {:trigger buf[i]} :: i < n && from + i in StoredBytes(v, x) ==> buf[i] == DataOf(v, x)[from + i])
    && (forall i: nat {:trigger buf[i]} :: n <= i < |buf| ==> buf[i] == before[i])
  }

  /** One round of sfs_read: c bytes of block n, from offset off, are copied out. */
  lemma DeliverStep(v: Vol, x: nat, buf: seq<Byte>, before: seq<Byte>, from: nat, done: nat, n: nat, off: nat, c: nat, tmp: seq<Byte>)
    requires Inv(v) && x in v.chain && Delivered(v, x, buf, before, from, done) && n < FRAME_COUNT * |v.chain[x]|
    requires from + done == BLOCK_SIZE * n + off && off + c <= BLOCK_SIZE == |tmp| && done + c <= |buf|
    requires BlockRead(v.disk, IdAt(v.disk, v.chain[x], n), tmp)
    ensures Delivered(v, x, Overlay(buf, done, tmp[off..off + c]), before, from, done + c)
  {
    var buf' := Overlay(buf, done, tmp[off..off + c]);
    forall i: nat | i < done + c && from + i in StoredBytes(v, x) ensures buf'[i] == DataOf(v, x)[from + i] {
      if i >= done {
        ByteInBlock(from + i, n);
      }
    }
  }

  /** What a write stored, a later read from the start of the file delivers, along
      with the bytes that were stored before. */
  lemma ReadBack(v: Vol, v': Vol, x: nat, n: nat, buf: seq<Byte>, from: nat, got: seq<Byte>, before: seq<Byte>, m: nat)
    requires FileWritten(v, v', x, n, buf, from) && Delivered(v', x, got, before, 0, m) && from + |buf| <= m
    ensures got[from..from + |buf|] == buf
    ensures forall i: nat :: i < m && i < |DataOf(v, x)| && i in StoredBytes(v, x) && !(from <= i < from + |buf|) ==>
      got[i] == DataOf(v, x)[i]
  {
    hide DataOf;
    forall i: nat | i < m && (i in StoredBytes(v, x) || from <= i < from + |buf|) ensures got[i] == DataOf(v', x)[i] {
      assert i in StoredBytes(v', x);
      assert 0 + i == i;
    }
    forall i: nat | i < |buf| ensures got[from + i] == buf[i] {
      assert DataOf(v', x)[from + i] == buf[from + i - from];
    }
  }
}
