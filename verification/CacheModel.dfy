/** The block cache of the virtual disk, on values: a ring of entries in front of a
    file of blocks, the blocks that the two together stand for, and which block a
    miss displaces. */
module CacheModel {
  import opened Arithmetic
  import opened DiskBytes

  datatype Entry = Entry(blockId: int, dirty: bool, content: seq<Byte>)

  /** The first of the first n entries that caches block id, or -1. */
  function Slot(ring: seq<Entry>, n: nat, id: nat): (r: int)
    requires n <= |ring|
    ensures -1 <= r < n
    ensures r >= 0 ==> ring[r].blockId == id && forall k: nat :: k < r ==> ring[k].blockId != id
    ensures r == -1 ==> forall k: nat :: k < n ==> ring[k].blockId != id
  {
    if n == 0 then -1
    else
      var r := Slot(ring, n - 1, id);
      if r >= 0 then r else if ring[n - 1].blockId == id then n - 1 else -1
  }

  /** The file holds at least max whole blocks, at most one more. */
  ghost predicate FileOk(file: seq<seq<Byte>>, max: nat) {
    max <= |file| <= max + 1 && forall i: nat :: i < |file| ==> |file[i]| == BLOCK_SIZE
  }

  ghost predicate EntryOk(file: seq<seq<Byte>>, max: nat, e: Entry) {
    && 0 <= e.blockId <= max && |e.content| == BLOCK_SIZE
    && (!e.dirty && e.blockId < max && e.blockId < |file| ==> e.content == file[e.blockId])
  }

  /** The occupied slots are the first size ones; they hold distinct blocks, the
      clean ones as they are in the file.  The last slot is never used. */
  ghost predicate CacheOk(file: seq<seq<Byte>>, max: nat, ring: seq<Entry>, size: nat, pos: nat) {
    && |ring| >= 2 && size < |ring| && pos + 1 < |ring| && (size + 1 < |ring| ==> pos == size)
    && (forall i: nat :: i < size ==> EntryOk(file, max, ring[i]))
    && (forall i: nat :: size <= i < |ring| ==> ring[i].blockId == -1 && !ring[i].dirty)
    && DistinctIds(ring, size)
  }

  ghost predicate DistinctIds(ring: seq<Entry>, size: nat)
    requires size <= |ring|
  {
    forall i: nat, j: nat :: i < j < size ==> ring[i].blockId != ring[j].blockId
  }

  /** Block id as a user of the disk sees it: the cached copy, or else the file's. */
  function Current(file: seq<seq<Byte>>, ring: seq<Entry>, size: nat, id: nat): seq<Byte>
    requires size <= |ring|
  {
    if Slot(ring, size, id) >= 0 then ring[Slot(ring, size, id)].content
    else if id < |file| then file[id] else []
  }

  /** All blocks of the disk. */
  function Blocks(file: seq<seq<Byte>>, max: nat, ring: seq<Entry>, size: nat): (r: seq<seq<Byte>>)
    requires size <= |ring|
    ensures |r| == max
  {
    seq(max, id requires 0 <= id < max => Current(file, ring, size, id))
  }

  /** Writing a block of the file, or the one right after its end. */
  function FilePut(file: seq<seq<Byte>>, id: nat, bytes: seq<Byte>): seq<seq<Byte>>
    requires id <= |file|
  {
    if id < |file| then file[id := bytes] else file + [bytes]
  }

  /** The file after an entry that is about to be displaced was written back. */
  function WrittenBack(file: seq<seq<Byte>>, e: Entry): seq<seq<Byte>>
    requires e.dirty ==> 0 <= e.blockId <= |file|
  {
    if e.dirty then FilePut(file, e.blockId, e.content) else file
  }

  function NextPos(pos: nat, capacity: nat): nat {
    if pos + 1 == capacity - 1 then 0 else pos + 1
  }

  function NextSize(ring: seq<Entry>, size: nat, pos: nat): nat
    requires pos < |ring|
  {
    if ring[pos].blockId == -1 then size + 1 else size
  }

  lemma SlotIs(ring: seq<Entry>, size: nat, id: nat, i: nat)
    requires i < size <= |ring| && DistinctIds(ring, size) && ring[i].blockId == id
    ensures Slot(ring, size, id) == i
  {
  }

  lemma SameSlot(ring: seq<Entry>, size: nat, ring': seq<Entry>, size': nat, id: nat)
    requires size <= |ring| && size' <= |ring'| && DistinctIds(ring, size) && DistinctIds(ring', size')
    requires forall i: nat :: i < size && ring[i].blockId == id ==> i < size' && ring'[i] == ring[i]
    requires forall i: nat :: i < size' && ring'[i].blockId == id ==> i < size && ring'[i] == ring[i]
    ensures Slot(ring', size', id) == Slot(ring, size, id)
    ensures Slot(ring, size, id) >= 0 ==> ring'[Slot(ring, size, id)] == ring[Slot(ring, size, id)]
  {
    var s, s' := Slot(ring, size, id), Slot(ring', size', id);
    if s >= 0 {
      SlotIs(ring', size', id, s);
    }
    if s' >= 0 {
      SlotIs(ring, size, id, s');
    }
  }

  /** A miss brings in block id: whatever it displaces is written back first. */
  lemma Fetched(file: seq<seq<Byte>>, max: nat, ring: seq<Entry>, size: nat, pos: nat, id: nat, content: seq<Byte>)
    requires FileOk(file, max) && CacheOk(file, max, ring, size, pos) && id <= max && |content| == BLOCK_SIZE
    requires Slot(ring, size, id) == -1 && (id < max ==> content == file[id])
    ensures var file' := WrittenBack(file, ring[pos]);
      var ring', size' := ring[pos := Entry(id, false, content)], NextSize(ring, size, pos);
      && FileOk(file', max) && CacheOk(file', max, ring', size', NextPos(pos, |ring|))
      && Blocks(file', max, ring', size') == Blocks(file, max, ring, size)
      && (id < max ==> file'[id] == file[id] == Blocks(file, max, ring, size)[id])
      && (id == max ==> |file'| == |file| && (max < |file| ==> file'[id] == file[id]))
  {
    var file' := WrittenBack(file, ring[pos]);
    var ring', size' := ring[pos := Entry(id, false, content)], NextSize(ring, size, pos);
    FetchedOk(file, max, ring, size, pos, id, content);
    forall b: nat | b < max ensures Current(file', ring', size', b) == Current(file, ring, size, b) {
      if b == id {
        SlotIs(ring', size', id, pos);
      } else if b == ring[pos].blockId {
        SlotIs(ring, size, b, pos);
        assert EntryOk(file, max, ring[pos]);
        forall k: nat | k < size' ensures ring'[k].blockId != b {
        }
      } else {
        SameSlot(ring, size, ring', size', b);
      }
    }
  }

  lemma FetchedOk(file: seq<seq<Byte>>, max: nat, ring: seq<Entry>, size: nat, pos: nat, id: nat, content: seq<Byte>)
    requires FileOk(file, max) && CacheOk(file, max, ring, size, pos) && id <= max && |content| == BLOCK_SIZE
    requires Slot(ring, size, id) == -1 && (id < max ==> content == file[id])
    ensures var file' := WrittenBack(file, ring[pos]);
      var ring', size' := ring[pos := Entry(id, false, content)], NextSize(ring, size, pos);
      && FileOk(file', max) && CacheOk(file', max, ring', size', NextPos(pos, |ring|))
      && (id < max ==> file'[id] == file[id])
      && (id == max ==> |file'| == |file| && (max < |file| ==> file'[id] == file[id]))
  {
    var file' := WrittenBack(file, ring[pos]);
    var ring', size' := ring[pos := Entry(id, false, content)], NextSize(ring, size, pos);
    assert pos < size ==> EntryOk(file, max, ring[pos]);
    assert ring[pos].blockId != id;
    forall i: nat | i < size' ensures EntryOk(file', max, ring'[i]) {
      if i != pos {
        assert EntryOk(file, max, ring[i]);
        assert ring[i].blockId != ring[pos].blockId;
      }
    }
  }

  /** A write hit changes only the block written. */
  lemma HitWritten(file: seq<seq<Byte>>, max: nat, ring: seq<Entry>, size: nat, pos: nat, id: nat, bytes: seq<Byte>)
    requires CacheOk(file, max, ring, size, pos) && |bytes| == BLOCK_SIZE
    requires Slot(ring, size, id) >= 0
    ensures var ring' := ring[Slot(ring, size, id) := Entry(id, true, bytes)];
      && CacheOk(file, max, ring', size, pos)
      && Blocks(file, max, ring', size) == (if id < max then Blocks(file, max, ring, size)[id := bytes] else Blocks(file, max, ring, size))
  {
    var s := Slot(ring, size, id);
    var ring' := ring[s := Entry(id, true, bytes)];
    forall i: nat | i < size ensures EntryOk(file, max, ring'[i]) {
      assert EntryOk(file, max, ring[i]);
    }
    assert CacheOk(file, max, ring', size, pos);
    forall b: nat | b < max ensures Current(file, ring', size, b) == if b == id then bytes else Current(file, ring, size, b) {
      if b == id {
        SlotIs(ring', size, id, s);
      } else {
        SameSlot(ring, size, ring', size, b);
      }
    }
  }

  /** So does a write miss, which goes to the file. */
  lemma MissWritten(file: seq<seq<Byte>>, max: nat, ring: seq<Entry>, size: nat, pos: nat, id: nat, bytes: seq<Byte>)
    requires FileOk(file, max) && CacheOk(file, max, ring, size, pos) && id <= max && |bytes| == BLOCK_SIZE
    requires Slot(ring, size, id) == -1
    ensures var file' := FilePut(file, id, bytes);
      && FileOk(file', max) && CacheOk(file', max, ring, size, pos)
      && Blocks(file', max, ring, size) == (if id < max then Blocks(file, max, ring, size)[id := bytes] else Blocks(file, max, ring, size))
  {
    var file' := FilePut(file, id, bytes);
    forall i: nat | i < size ensures EntryOk(file', max, ring[i]) {
      assert EntryOk(file, max, ring[i]);
    }
  }

  // ----- closing the cache

  /** The file after the dirty ones of the first n entries were written to it. */
  function Flushed(file: seq<seq<Byte>>, ring: seq<Entry>, n: nat): seq<seq<Byte>>
    requires n <= |ring|
  {
    if n == 0 then file
    else
      var f := Flushed(file, ring, n - 1);
      if ring[n - 1].dirty && 0 <= ring[n - 1].blockId <= |f| then FilePut(f, ring[n - 1].blockId, ring[n - 1].content) else f
  }

  lemma {:induction false} FlushedOk(file: seq<seq<Byte>>, max: nat, ring: seq<Entry>, size: nat, pos: nat, n: nat)
    requires FileOk(file, max) && CacheOk(file, max, ring, size, pos) && n <= size
    ensures FileOk(Flushed(file, ring, n), max)
    ensures forall id: nat :: id < max ==>
      Flushed(file, ring, n)[id] == if Slot(ring, n, id) >= 0 then ring[Slot(ring, n, id)].content else file[id]
  {
    if n > 0 {
      FlushedOk(file, max, ring, size, pos, n - 1);
      assert EntryOk(file, max, ring[n - 1]);
      forall id: nat | id < max
        ensures Flushed(file, ring, n)[id] == if Slot(ring, n, id) >= 0 then ring[Slot(ring, n, id)].content else file[id]
      {
        OneFlushed(file, max, ring, size, pos, n, id);
      }
    }
  }

  lemma OneFlushed(file: seq<seq<Byte>>, max: nat, ring: seq<Entry>, size: nat, pos: nat, n: nat, id: nat)
    requires FileOk(file, max) && CacheOk(file, max, ring, size, pos) && 0 < n <= size && id < max
    requires EntryOk(file, max, ring[n - 1]) && max <= |Flushed(file, ring, n - 1)|
    requires Flushed(file, ring, n - 1)[id] == if Slot(ring, n - 1, id) >= 0 then ring[Slot(ring, n - 1, id)].content else file[id]
    ensures max <= |Flushed(file, ring, n)|
    ensures Flushed(file, ring, n)[id] == if Slot(ring, n, id) >= 0 then ring[Slot(ring, n, id)].content else file[id]
  {
    if Slot(ring, n - 1, id) >= 0 {
      assert ring[Slot(ring, n - 1, id)].blockId != ring[n - 1].blockId;
    }
  }

  /** Flushing the whole cache leaves in the file what the disk held. */
  lemma FlushedAll(file: seq<seq<Byte>>, max: nat, ring: seq<Entry>, size: nat, pos: nat)
    requires FileOk(file, max) && CacheOk(file, max, ring, size, pos)
    ensures FileOk(Flushed(file, ring, size), max)
    ensures Flushed(file, ring, size)[..max] == Blocks(file, max, ring, size)
  {
    FlushedOk(file, max, ring, size, pos, size);
  }

  lemma UncachedBlocks(file: seq<seq<Byte>>, max: nat, ring: seq<Entry>)
    requires max <= |file|
    ensures Blocks(file, max, ring, 0) == file[..max]
  {
  }

  // ----- which blocks stay resident

  /** The ids in the ring and the place of the next insertion. */
  datatype Residents = Residents(ids: seq<int>, pos: nat)

  ghost predicate ResidentsOk(r: Residents) {
    r.pos < |r.ids| && forall i: nat, j: nat :: i < j < |r.ids| && r.ids[i] == r.ids[j] ==> r.ids[i] == -1
  }

  function Ids(ring: seq<Entry>): (r: seq<int>)
    ensures |r| == |ring|
  {
    seq(|ring|, i requires 0 <= i < |ring| => ring[i].blockId)
  }

  /** What reading block id does to the ring: a hit changes nothing, a miss
      displaces the entry at the insert position. */
  function Touch(r: Residents, id: nat): Residents
    requires r.pos < |r.ids|
  {
    if id in r.ids then r else Residents(r.ids[r.pos := id], (r.pos + 1) % |r.ids|)
  }

  ghost function TouchAll(r: Residents, ids: seq<nat>): (r': Residents)
    requires r.pos < |r.ids|
    ensures r'.pos < |r'.ids| && |r'.ids| == |r.ids|
    decreases |ids|
  {
    if ids == [] then r else TouchAll(Touch(r, ids[0]), ids[1..])
  }

  /** How many of the reads miss. */
  ghost function Misses(r: Residents, ids: seq<nat>): nat
    requires r.pos < |r.ids|
    decreases |ids|
  {
    if ids == [] then 0
    else (if ids[0] in r.ids then 0 else 1) + Misses(Touch(r, ids[0]), ids[1..])
  }

  /** A block in slot p stays there until the insert position reaches p; the
      position moves once for every miss, and hits do not matter. */
  lemma {:induction false} StaysFor(r: Residents, p: nat, d: nat, ids: seq<nat>)
    requires r.pos < |r.ids| && p < |r.ids| && d < |r.ids| && (r.pos + d) % |r.ids| == p
    requires Misses(r, ids) <= d
    ensures var r' := TouchAll(r, ids);
      r'.ids[p] == r.ids[p] && (r'.pos + (d - Misses(r, ids))) % |r.ids| == p
    decreases |ids|
  {
    if ids != [] {
      if ids[0] in r.ids {
        StaysFor(r, p, d, ids[1..]);
      } else {
        PositionMoves(r.pos, d, |r.ids|);
        StaysFor(Touch(r, ids[0]), p, d - 1, ids[1..]);
      }
    }
  }

  lemma PositionMoves(pos: nat, d: nat, n: nat)
    requires pos < n && 0 < d < n
    ensures ((pos + 1) % n + (d - 1)) % n == (pos + d) % n && (pos + d) % n != pos
  {
    ModShift(pos + 1, d - 1, n);
    if pos + d < n {
      SmallMod(pos + d, n);
    } else {
      WrapMod(pos + d, n);
    }
  }

  /** A block brought in by a miss stays resident through |ids| - 1 further misses
      and is displaced by the next one, whatever hits come in between. */
  lemma ResidentExactly(r: Residents, x: nat, ids: seq<nat>, y: nat)
    requires ResidentsOk(r) && x !in r.ids
    requires Misses(Touch(r, x), ids) < |r.ids|
    ensures var r' := TouchAll(Touch(r, x), ids);
      && x in r'.ids
      && (Misses(Touch(r, x), ids) == |r.ids| - 1 && y !in r'.ids ==> x !in Touch(r', y).ids)
      && (Misses(Touch(r, x), ids) < |r.ids| - 1 ==> x in Touch(r', y).ids)
  {
    var n, r1, m := |r.ids|, Touch(r, x), Misses(Touch(r, x), ids);
    var r' := TouchAll(r1, ids);
    FullCircle(r.pos, n);
    StaysFor(r1, r.pos, n - 1, ids);
    TouchedOk(r, x);
    AllTouchedOk(r1, ids);
    assert r'.ids[r.pos] == x;
    if m < n - 1 {
      PositionMoves(r'.pos, n - 1 - m, n);
      assert Touch(r', y).ids[r.pos] == x;
    } else if y !in r'.ids {
      SmallMod(r'.pos, n);
      Displaced(r', x, y);
    }
  }

  lemma SmallMod(a: nat, n: nat)
    requires a < n
    ensures (a + (n - 1 - (n - 1))) % n == a
  {
  }

  lemma Displaced(r: Residents, x: nat, y: nat)
    requires ResidentsOk(r) && r.ids[r.pos] == x && y !in r.ids
    ensures x !in Touch(r, y).ids
  {
    forall i: nat | i < |r.ids| ensures Touch(r, y).ids[i] != x {
    }
  }

  lemma FullCircle(pos: nat, n: nat)
    requires pos < n
    ensures ((pos + 1) % n + (n - 1)) % n == pos
  {
    if pos + 1 == n {
      assert (pos + 1) % n == 0;
    } else {
      assert (pos + 1) % n == pos + 1;
      assert (pos + n) % n == pos;
    }
  }

  lemma TouchedOk(r: Residents, id: nat)
    requires ResidentsOk(r)
    ensures ResidentsOk(Touch(r, id))
  {
  }

  lemma {:induction false} AllTouchedOk(r: Residents, ids: seq<nat>)
    requires ResidentsOk(r)
    ensures ResidentsOk(TouchAll(r, ids))
    decreases |ids|
  {
    if ids != [] {
      TouchedOk(r, ids[0]);
      AllTouchedOk(Touch(r, ids[0]), ids[1..]);
    }
  }

  // ----- the ring as a list of ids

  lemma ResidentIffSlot(file: seq<seq<Byte>>, max: nat, ring: seq<Entry>, size: nat, pos: nat, id: nat)
    requires CacheOk(file, max, ring, size, pos)
    ensures id in Ids(ring)[..|ring| - 1] <==> Slot(ring, size, id) >= 0
    ensures ResidentsOk(Residents(Ids(ring)[..|ring| - 1], pos))
  {
    var s := Slot(ring, size, id);
    if s >= 0 {
      assert Ids(ring)[..|ring| - 1][s] == id;
    }
  }

  lemma MissTouches(file: seq<seq<Byte>>, max: nat, ring: seq<Entry>, size: nat, pos: nat, id: nat, content: seq<Byte>)
    requires CacheOk(file, max, ring, size, pos) && Slot(ring, size, id) == -1
    ensures var ring' := ring[pos := Entry(id, false, content)];
      Residents(Ids(ring')[..|ring| - 1], NextPos(pos, |ring|)) == Touch(Residents(Ids(ring)[..|ring| - 1], pos), id)
  {
    ResidentIffSlot(file, max, ring, size, pos, id);
    var n := |ring| - 1;
    assert (pos + 1) % n == NextPos(pos, |ring|) by {
      if pos + 1 == n {
        assert (pos + 1) % n == 0;
      }
    }
    assert Ids(ring[pos := Entry(id, false, content)])[..n] == Ids(ring)[..n][pos := id];
  }

  // ----- the flat address space

  /** The bytes of the disk, in address order. */
  function Flat(blocks: seq<seq<Byte>>): (r: seq<Byte>)
    requires AllWhole(blocks)
    ensures |r| == BLOCK_SIZE * |blocks|
  {
    seq(BLOCK_SIZE * |blocks|, p requires 0 <= p < BLOCK_SIZE * |blocks| => blocks[p / BLOCK_SIZE][p % BLOCK_SIZE])
  }

  ghost predicate AllWhole(blocks: seq<seq<Byte>>) {
    forall i: nat :: i < |blocks| ==> |blocks[i]| == BLOCK_SIZE
  }

  /** d is d0 with the bytes from start on taken from the first n of buf. */
  ghost predicate SplicedIn(d0: seq<Byte>, d: seq<Byte>, start: nat, buf: seq<Byte>, n: nat) {
    && |d| == |d0| && start + n <= |d| && n <= |buf|
    && forall p: nat {:trigger d[p]} :: p < |d| ==> d[p] == if start <= p < start + n then buf[p - start] else d0[p]
  }

  lemma FlatAt(blocks: seq<seq<Byte>>, id: nat, k: nat)
    requires AllWhole(blocks) && id < |blocks| && k < BLOCK_SIZE
    ensures BLOCK_SIZE * id + k < |Flat(blocks)| && Flat(blocks)[BLOCK_SIZE * id + k] == blocks[id][k]
  {
  }

  /** One round of a byte write: c bytes go to offset off of block id. */
  lemma FlatRound(c0: seq<seq<Byte>>, c: seq<seq<Byte>>, start: nat, buf: seq<Byte>, n: nat, id: nat, off: nat, tmp: seq<Byte>, k: nat)
    requires AllWhole(c0) && AllWhole(c) && SplicedIn(Flat(c0), Flat(c), start, buf, n) && id < |c| && |tmp| == BLOCK_SIZE
    requires start + n == BLOCK_SIZE * id + off && off + k <= BLOCK_SIZE && n + k <= |buf|
    requires off == 0 || n == 0
    requires k == BLOCK_SIZE || tmp == c[id]
    ensures var c' := c[id := Overlay(tmp, off, buf[n..n + k])];
      AllWhole(c') && SplicedIn(Flat(c0), Flat(c'), start, buf, n + k)
  {
    var c' := c[id := Overlay(tmp, off, buf[n..n + k])];
    forall p: nat | p < |Flat(c')|
      ensures Flat(c')[p] == if start <= p < start + n + k then buf[p - start] else Flat(c0)[p]
    {
      assert Flat(c)[p] == c[p / BLOCK_SIZE][p % BLOCK_SIZE];
      if p / BLOCK_SIZE == id {
        var i := p % BLOCK_SIZE;
        assert p == BLOCK_SIZE * id + i;
      }
    }
  }

  // ----- rounds of a transfer

  /** How many blocks a transfer touches. */
  function Rounds(remaining: nat, offset: nat): nat
    requires offset < BLOCK_SIZE
    decreases remaining
  {
    if remaining == 0 then 0 else 1 + Rounds(remaining - ToCopy(remaining, offset), 0)
  }

  /** How many of them it touches only in part. */
  function Partials(remaining: nat, offset: nat): nat
    requires offset < BLOCK_SIZE
    decreases remaining
  {
    if remaining == 0 then 0
    else
      (if ToCopy(remaining, offset) == BLOCK_SIZE then 0 else 1) + Partials(remaining - ToCopy(remaining, offset), 0)
  }

  lemma {:induction false} RoundsFromStart(remaining: nat)
    ensures Rounds(remaining, 0) == (remaining + BLOCK_SIZE - 1) / BLOCK_SIZE
    ensures Partials(remaining, 0) <= 1 && Partials(remaining, 0) <= Rounds(remaining, 0)
    decreases remaining
  {
    if remaining != 0 {
      RoundsFromStart(remaining - ToCopy(remaining, 0));
    }
  }

  /** A transfer touches the blocks from that of its first byte to that of its
      last, and at most two of them in part. */
  lemma RoundsAre(start: nat, nbytes: nat)
    requires nbytes > 0
    ensures Rounds(nbytes, start % BLOCK_SIZE) == (start + nbytes - 1) / BLOCK_SIZE - start / BLOCK_SIZE + 1
    ensures Partials(nbytes, start % BLOCK_SIZE) <= 2 && Partials(nbytes, start % BLOCK_SIZE) <= Rounds(nbytes, start % BLOCK_SIZE)
  {
    var offset := start % BLOCK_SIZE;
    RoundsFromStart(nbytes - ToCopy(nbytes, offset));
  }
  // ----- which blocks a transfer touches

  function IdRange(from: nat, n: nat): (r: seq<nat>)
    ensures |r| == n && forall i: nat :: i < n ==> r[i] == from + i
    decreases n
  {
    if n == 0 then [] else [from] + IdRange(from + 1, n - 1)
  }

  /** The blocks from that of the first byte to that of the last. */
  function TouchedIds(start: nat, nbytes: nat): seq<nat> {
    if nbytes == 0 then []
    else IdRange(start / BLOCK_SIZE, (start + nbytes - 1) / BLOCK_SIZE - start / BLOCK_SIZE + 1)
  }

  /** These are the blocks that hold a byte of the range. */
  lemma TouchedHoldBytes(start: nat, nbytes: nat, id: nat)
    ensures id in TouchedIds(start, nbytes) <==> exists p: nat :: start <= p < start + nbytes && p / BLOCK_SIZE == id
  {
    var ids, first := TouchedIds(start, nbytes), start / BLOCK_SIZE;
    if id in ids {
      var i: nat :| i < |ids| && ids[i] == id;
      var p := if i == 0 then start else BLOCK_SIZE * id;
      assert start <= p < start + nbytes && p / BLOCK_SIZE == id;
    }
    if p: nat :| start <= p < start + nbytes && p / BLOCK_SIZE == id {
      assert first <= id <= (start + nbytes - 1) / BLOCK_SIZE;
      assert ids[id - first] == id;
    }
  }

  lemma TouchedInRounds(start: nat, nbytes: nat)
    ensures TouchedIds(start, nbytes) == IdRange(start / BLOCK_SIZE, Rounds(nbytes, start % BLOCK_SIZE))
  {
    if nbytes > 0 {
      RoundsAre(start, nbytes);
    }
  }

  /** One round less. */
  lemma RoundTaken(remaining: nat, offset: nat, id: nat)
    requires remaining > 0 && offset < BLOCK_SIZE
    ensures Rounds(remaining, offset) == 1 + Rounds(remaining - ToCopy(remaining, offset), 0)
    ensures IdRange(id, Rounds(remaining, offset)) == [id] + IdRange(id + 1, Rounds(remaining - ToCopy(remaining, offset), 0))
  {
  }

  /** The range covers the whole block. */
  predicate CoversBlock(start: nat, nbytes: nat, id: nat) {
    start <= BLOCK_SIZE * id && BLOCK_SIZE * (id + 1) <= start + nbytes
  }

  /** The blocks that the range touches only in part. */
  function Parts(ids: seq<nat>, start: nat, nbytes: nat): seq<nat> {
    if ids == [] then []
    else (if CoversBlock(start, nbytes, ids[0]) then [] else [ids[0]]) + Parts(ids[1..], start, nbytes)
  }

  lemma NextPart(id: nat, rest: seq<nat>, start: nat, nbytes: nat)
    ensures Parts([id] + rest, start, nbytes)
         == if CoversBlock(start, nbytes, id) then Parts(rest, start, nbytes) else [id] + Parts(rest, start, nbytes)
  {
    assert ([id] + rest)[1..] == rest;
  }

  /** How many of the blocks are not resident when their turn to be written comes:
      only those touched in part are read, and become resident, before. */
  ghost function WriteMisses(r: Residents, ids: seq<nat>, start: nat, nbytes: nat): nat
    requires r.pos < |r.ids|
    decreases |ids|
  {
    if ids == [] then 0
    else if CoversBlock(start, nbytes, ids[0]) then
      (if ids[0] in r.ids then 0 else 1) + WriteMisses(r, ids[1..], start, nbytes)
    else WriteMisses(Touch(r, ids[0]), ids[1..], start, nbytes)
  }

  /** A round of a transfer moves a whole block exactly if the range covers it. */
  lemma WholeRound(start: nat, nbytes: nat, done: nat, id: nat, offset: nat)
    requires done < nbytes && offset < BLOCK_SIZE && start + done == BLOCK_SIZE * id + offset && (offset == 0 || done == 0)
    ensures ToCopy(nbytes - done, offset) == BLOCK_SIZE <==> CoversBlock(start, nbytes, id)
  {
  }

  /** The partial rounds are those of the blocks touched in part. */
  lemma {:induction false} PartialsAre(start: nat, nbytes: nat, done: nat, id: nat, offset: nat)
    requires done <= nbytes && offset < BLOCK_SIZE
    requires done < nbytes ==> start + done == BLOCK_SIZE * id + offset && (offset == 0 || done == 0)
    ensures |Parts(IdRange(id, Rounds(nbytes - done, offset)), start, nbytes)| == Partials(nbytes - done, offset)
    decreases nbytes - done
  {
    if done < nbytes {
      WholeRound(start, nbytes, done, id, offset);
      PartialsAre(start, nbytes, done + ToCopy(nbytes - done, offset), id + 1, 0);
    }
  }
}
