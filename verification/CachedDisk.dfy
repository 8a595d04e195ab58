/** The virtual disk with its write-back cache: block access, byte ranges over the
    flat address space, and the latency of each access. */
module CachedDisk {
  import opened DiskBytes
  import opened CacheModel

  const HDD_SEEK: nat := 10
  const HDD_READ_LATENCY: nat := 2
  const HDD_WRITE_LATENCY: nat := 2
  const SSD_READ_LATENCY: nat := 1
  const SSD_WRITE_LATENCY: nat := 1
  const MEMORY_LATENCY: nat := 1

  /** An operation of a user of the disk. */
  datatype Op =
    | ReadBytes(start: int, nbytes: int)
    | WriteBytes(start: int, bytes: seq<Byte>)
    | GetBlock(id: nat)
    | PutBlock(id: nat, block: seq<Byte>)
    | OpenCache(nblocks: nat)
    | CloseCache

  datatype Answer = Refused | Bytes(bytes: seq<Byte>) | Done

  /** A plain array of bytes refuses a range that reaches its last byte. */
  predicate Refuses(d: seq<Byte>, start: int, nbytes: int) {
    start < 0 || nbytes < 0 || start + nbytes >= |d|
  }

  /** What an operation does to a plain array of bytes: the caches do not exist. */
  function AfterOp(d: seq<Byte>, op: Op): (d': seq<Byte>)
    ensures |d'| == |d|
  {
    match op
    case WriteBytes(start, bytes) =>
      if Refuses(d, start, |bytes|) then d else Overlay(d, start, bytes)
    case PutBlock(id, block) =>
      if BLOCK_SIZE * id + |block| <= |d| then Overlay(d, BLOCK_SIZE * id, block) else d
    case _ => d
  }

  function AnswerOf(d: seq<Byte>, op: Op): Answer {
    match op
    case ReadBytes(start, nbytes) => if Refuses(d, start, nbytes) then Refused else Bytes(d[start..start + nbytes])
    case WriteBytes(start, bytes) => if Refuses(d, start, |bytes|) then Refused else Done
    case GetBlock(id) =>
      if BLOCK_SIZE * (id + 1) <= |d| then Bytes(d[BLOCK_SIZE * id..BLOCK_SIZE * (id + 1)]) else Refused
    case PutBlock(id, block) => if BLOCK_SIZE * (id + 1) <= |d| then Done else Refused
    case _ => Done
  }

  function AfterOps(d: seq<Byte>, ops: seq<Op>): seq<Byte>
    decreases |ops|
  {
    if ops == [] then d else AfterOps(AfterOp(d, ops[0]), ops[1..])
  }

  function AnswersOf(d: seq<Byte>, ops: seq<Op>): seq<Answer>
    decreases |ops|
  {
    if ops == [] then [] else [AnswerOf(d, ops[0])] + AnswersOf(AfterOp(d, ops[0]), ops[1..])
  }

  /** The operation keeps the rules: blocks are whole and their id is not the one
      right behind the last block; a cache has at least two entries and is opened
      only when none is open. */
  predicate Proper(op: Op, max: nat, enabled: bool) {
    match op
    case GetBlock(id) => id != max
    case PutBlock(id, block) => id != max && |block| == BLOCK_SIZE
    case OpenCache(nblocks) => nblocks >= 2 && !enabled
    case _ => true
  }

  function EnabledAfter(op: Op, enabled: bool): bool {
    if op.OpenCache? then true else if op.CloseCache? then false else enabled
  }

  predicate AllProper(ops: seq<Op>, max: nat, enabled: bool)
    decreases |ops|
  {
    ops != [] ==> Proper(ops[0], max, enabled) && AllProper(ops[1..], max, EnabledAfter(ops[0], enabled))
  }

  /** After the first i operations d is what they made of d0, and the answers so
      far are theirs. */
  ghost predicate Agrees(d0: seq<Byte>, d: seq<Byte>, ops: seq<Op>, i: nat, answers: seq<Answer>)
    requires i <= |ops|
  {
    && AfterOps(d, ops[i..]) == AfterOps(d0, ops)
    && answers + AnswersOf(d, ops[i..]) == AnswersOf(d0, ops)
  }

  lemma NextOp(d0: seq<Byte>, d: seq<Byte>, ops: seq<Op>, i: nat, answers: seq<Answer>)
    requires i < |ops| && Agrees(d0, d, ops, i, answers)
    ensures Agrees(d0, AfterOp(d, ops[i]), ops, i + 1, answers + [AnswerOf(d, ops[i])])
    ensures ops[i..][0] == ops[i] && ops[i..][1..] == ops[i + 1..]
  {
    assert ops[i..][1..] == ops[i + 1..];
  }

  class Disk {
    /** The backing file, in blocks. */
    var file: seq<seq<Byte>>
    var maxBlocks: nat
    /** 0 for a hard disk, 1 for a solid state disk. */
    var diskType: nat
    var cacheEnabled: bool
    var ring: array<Entry>
    var cacheSize: nat
    var nextInsertPos: nat

    /** The parts that a block access relies on. */
    ghost predicate Accessible()
      reads this, ring
    {
      && FileOk(file, maxBlocks)
      && (cacheEnabled ==> CacheOk(file, maxBlocks, ring[..], cacheSize, nextInsertPos))
    }

    ghost predicate Valid()
      reads this, ring
    {
      Accessible() && (!cacheEnabled ==> cacheSize == 0)
    }

    /** The blocks of the disk, as its users see them. */
    ghost function Contents(): (r: seq<seq<Byte>>)
      requires Valid()
      reads this, ring
      ensures |r| == maxBlocks
    {
      Blocks(file, maxBlocks, ring[..], cacheSize)
    }

    ghost predicate Cached(id: nat)
      requires Valid()
      reads this, ring
    {
      cacheEnabled && Slot(ring[..], cacheSize, id) >= 0
    }

    /** The ids in the slots in use, and the place of the next insertion. */
    ghost function Resident(): (r: Residents)
      requires Valid() && cacheEnabled
      reads this, ring
      ensures r.pos < |r.ids|
    {
      Residents(Ids(ring[..])[..ring.Length - 1], nextInsertPos)
    }

    /** How many of the reads miss; all of them without a cache. */
    ghost function ReadMisses(ids: seq<nat>): nat
      requires Valid()
      reads this, ring
    {
      if cacheEnabled then Misses(Resident(), ids) else |ids|
    }

    /** How many of the blocks of a range that is written miss. */
    ghost function WrittenMisses(ids: seq<nat>, start: nat, nbytes: nat): nat
      requires Valid()
      reads this, ring
    {
      if cacheEnabled then WriteMisses(Resident(), ids, start, nbytes) else |ids|
    }

    /** What is resident after the reads. */
    ghost function ResidentAfter(ids: seq<nat>): Residents
      requires Valid()
      reads this, ring
    {
      if cacheEnabled then TouchAll(Resident(), ids) else Residents([], 0)
    }

    /** A disk of zeros, without a cache. */
    constructor (nblocks: nat, kind: nat)
      ensures Valid() && !cacheEnabled && maxBlocks == nblocks && diskType == kind
      ensures Contents() == seq(nblocks, _ => Zeros(BLOCK_SIZE))
    {
      file := seq(nblocks, _ => Zeros(BLOCK_SIZE));
      maxBlocks, diskType := nblocks, kind;
      cacheEnabled, cacheSize, nextInsertPos := false, 0, 0;
      ring := new Entry[0];
    }

    // ----- the cache

    /** Starts an empty cache of the given number of entries. */
    method InitCache(nblocks: nat)
      requires Valid() && !cacheEnabled && nblocks >= 2
      modifies this
      ensures Valid() && cacheEnabled && fresh(ring) && ring.Length == nblocks
      ensures maxBlocks == old(maxBlocks) && diskType == old(diskType)
      ensures Contents() == old(Contents()) && Resident() == Residents(seq(nblocks - 1, _ => -1), 0)
    {
      ring := new Entry[nblocks];
      var i := 0;
      while i < nblocks
        invariant i <= nblocks == ring.Length && fresh(ring)
        invariant file == old(file) && maxBlocks == old(maxBlocks) && diskType == old(diskType)
        invariant forall k: nat :: k < i ==> ring[k].blockId == -1 && !ring[k].dirty
      {
        ring[i] := ring[i].(blockId := -1, dirty := false);
        i := i + 1;
      }
      cacheSize := 0;
      cacheEnabled := true;
      nextInsertPos := 0;
    }

    /** The index of the entry that caches the block, or -1. */
    method FindCachedEntry(id: nat) returns (r: int)
      requires cacheSize <= ring.Length
      ensures r == Slot(ring[..], cacheSize, id)
    {
      var i := 0;
      while i < cacheSize
        invariant i <= cacheSize && Slot(ring[..], i, id) == -1
      {
        if ring[i].blockId == id {
          SlotFound(ring[..], cacheSize, id, i);
          return i;
        }
        i := i + 1;
      }
      return -1;
    }

    /** Marks the entry of a cached block. */
    method MarkDirty(id: nat)
      requires cacheSize <= ring.Length && Slot(ring[..], cacheSize, id) >= 0
      modifies ring
      ensures var i := Slot(old(ring[..]), cacheSize, id); ring[..] == old(ring[..])[i := old(ring[i]).(dirty := true)]
    {
      var entry := FindCachedEntry(id);
      ring[entry] := ring[entry].(dirty := true);
    }

    /** The entry for a block: the one it has, or the one at the insert position,
        after what was there is written back. */
    method CreateCachedBlock(id: nat) returns (entry: nat)
      requires Accessible() && cacheEnabled && id <= maxBlocks
      modifies this, ring
      ensures ring == old(ring) && maxBlocks == old(maxBlocks) && diskType == old(diskType) && cacheEnabled
      ensures var s, e := Slot(old(ring[..]), old(cacheSize), id), old(ring[nextInsertPos]);
        if s >= 0 then
          && entry == s && file == old(file) && ring[..] == old(ring[..])
          && cacheSize == old(cacheSize) && nextInsertPos == old(nextInsertPos)
        else
          && entry == old(nextInsertPos) && (e.dirty ==> 0 <= e.blockId <= |old(file)|) && file == WrittenBack(old(file), e)
          && ring[..] == old(ring[..])[entry := Entry(id, false, Zeros(BLOCK_SIZE))]
          && cacheSize == NextSize(old(ring[..]), old(cacheSize), entry) && nextInsertPos == NextPos(entry, ring.Length)
    {
      var existing := FindCachedEntry(id);
      if existing != -1 {
        return existing;
      }
      entry := nextInsertPos;
      var origBlockId := ring[entry].blockId;
      if ring[entry].dirty {
        assert EntryOk(file, maxBlocks, ring[..][entry]);
        cacheEnabled := false;
        var r := WriteBlock(origBlockId, ring[entry].content);
        cacheEnabled := true;
      }
      ring[entry] := Entry(id, false, Zeros(BLOCK_SIZE));
      nextInsertPos := nextInsertPos + 1;
      if nextInsertPos == ring.Length - 1 {
        nextInsertPos := 0;
      }
      if origBlockId == -1 {
        cacheSize := cacheSize + 1;
      }
    }

    /** Writes the dirty entries to the file and turns the cache off. */
    method CloseCache()
      requires Valid()
      modifies this, ring
      ensures Valid() && !cacheEnabled && maxBlocks == old(maxBlocks) && diskType == old(diskType) && ring == old(ring)
      ensures Contents() == old(Contents()) && file[..maxBlocks] == old(Contents())
    {
      hide Blocks, Slot, DistinctIds;
      ghost var wasEnabled, entries := cacheEnabled, ring[..];
      if wasEnabled {
        FlushedAll(file, maxBlocks, entries, cacheSize, nextInsertPos);
      } else {
        UncachedBlocks(file, maxBlocks, entries);
      }
      cacheEnabled := false;
      var i := 0;
      while i < cacheSize
        invariant i <= cacheSize == old(cacheSize) && ring == old(ring) && ring[..] == entries && !cacheEnabled
        invariant maxBlocks == old(maxBlocks) && diskType == old(diskType) && nextInsertPos == old(nextInsertPos)
        invariant file == Flushed(old(file), entries, i) && FileOk(file, maxBlocks)
      {
        assert EntryOk(old(file), maxBlocks, entries[i]);
        if ring[i].dirty {
          var r := WriteBlock(ring[i].blockId, ring[i].content);
        }
        i := i + 1;
        FlushedOk(old(file), maxBlocks, entries, cacheSize, nextInsertPos, i);
      }
      cacheSize := 0;
      nextInsertPos := 0;
      UncachedBlocks(file, maxBlocks, ring[..]);
    }

    // ----- whole blocks

    /** Writes block id: to its cache entry if it has one (-1), else to the file (0);
        1 if the id is above the number of blocks. */
    method WriteBlock(id: nat, buffer: seq<Byte>) returns (r: int)
      requires Accessible() && |buffer| == BLOCK_SIZE
      modifies this`file, ring
      ensures Accessible() && (old(Valid()) ==> Valid())
      ensures id > maxBlocks ==> r == 1 && file == old(file) && ring[..] == old(ring[..])
      ensures id <= maxBlocks && !cacheEnabled ==>
        r == 0 && file == FilePut(old(file), id, buffer) && ring[..] == old(ring[..])
      ensures id <= maxBlocks && old(Valid()) ==> r == if old(Cached(id)) then -1 else 0
      ensures old(Valid()) ==> Contents() == if id < maxBlocks then old(Contents())[id := buffer] else old(Contents())
      ensures old(Valid()) && cacheEnabled ==> Resident() == old(Resident())
    {
      if id > maxBlocks {
        return 1;
      }
      if cacheEnabled {
        var cached := FindCachedEntry(id);
        if cached == -1 {
          MissWritten(file, maxBlocks, ring[..], cacheSize, nextInsertPos, id, buffer);
          file := FilePut(file, id, buffer);
          r := 0;
        } else {
          HitWritten(file, maxBlocks, ring[..], cacheSize, nextInsertPos, id, buffer);
          WriteEntry(cached, id, buffer);
          r := -1;
        }
      } else {
        UncachedBlocks(file, maxBlocks, ring[..]);
        file := FilePut(file, id, buffer);
        UncachedBlocks(file, maxBlocks, ring[..]);
        r := 0;
      }
    }

    /** A write hit: the content is replaced and the entry marked. */
    method WriteEntry(cached: nat, id: nat, buffer: seq<Byte>)
      requires cacheSize <= ring.Length && cached == Slot(ring[..], cacheSize, id)
      modifies ring
      ensures ring[..] == old(ring[..])[cached := Entry(id, true, buffer)]
      ensures Ids(ring[..]) == Ids(old(ring[..]))
    {
      ghost var before := ring[..];
      ring[cached] := ring[cached].(content := buffer);
      SameSlotAfter(before, ring[..], cacheSize, id);
      MarkDirty(id);
    }

    /** Reads block id: from the cache (-1) or from the file, bringing it into the
        cache (0); 1 if it does not exist. */
    method ReadBlock(id: nat, buffer: seq<Byte>) returns (r: int, data: seq<Byte>)
      requires Valid() && |buffer| == BLOCK_SIZE
      modifies this, ring
      ensures Valid() && ring == old(ring) && maxBlocks == old(maxBlocks) && diskType == old(diskType)
      ensures cacheEnabled == old(cacheEnabled) && |data| == BLOCK_SIZE && Contents() == old(Contents())
      ensures id < maxBlocks ==> data == Contents()[id] && r == if old(Cached(id)) then -1 else 0
      ensures id == maxBlocks ==> r == if old(Cached(id)) then -1 else if |old(file)| > maxBlocks then 0 else 1
      ensures id > maxBlocks ==> r == 1
      ensures r == 1 ==> data == buffer
      ensures r != 1 ==> data == old(Current(file, ring[..], cacheSize, id))
      ensures cacheEnabled && id <= maxBlocks ==> (r == -1 <==> id in old(Resident()).ids)
      ensures !cacheEnabled || id > maxBlocks ==> file == old(file) && ring[..] == old(ring[..])
      ensures cacheEnabled && id <= maxBlocks ==> Cached(id) && Resident() == Touch(old(Resident()), id)
    {
      data := buffer;
      if id > maxBlocks {
        return 1, data;
      }
      if cacheEnabled {
        var cached := FindCachedEntry(id);
        ResidentIffSlot(file, maxBlocks, ring[..], cacheSize, nextInsertPos, id);
        if cached == -1 {
          r, data := Fetch(id, buffer);
        } else {
          data := ring[cached].content;
          r := -1;
        }
      } else if id < |file| {
        UncachedBlocks(file, maxBlocks, ring[..]);
        r, data := 0, file[id];
      } else {
        r := 1;
      }
    }

    /** A read miss. */
    method Fetch(id: nat, buffer: seq<Byte>) returns (r: int, data: seq<Byte>)
      requires Valid() && cacheEnabled && id <= maxBlocks && !Cached(id) && |buffer| == BLOCK_SIZE
      modifies this, ring
      ensures Valid() && ring == old(ring) && maxBlocks == old(maxBlocks) && diskType == old(diskType)
      ensures cacheEnabled && |data| == BLOCK_SIZE && Contents() == old(Contents())
      ensures id < maxBlocks ==> data == Contents()[id] && r == 0
      ensures id == maxBlocks ==> r == if |old(file)| > maxBlocks then 0 else 1
      ensures r == 1 ==> data == buffer
      ensures r == 0 ==> id < |old(file)| && data == old(file)[id]
      ensures Cached(id) && Resident() == Touch(old(Resident()), id)
    {
      hide Blocks, EntryOk, Touch;
      ghost var content := if id < |file| then file[id] else Zeros(BLOCK_SIZE);
      Fetched(file, maxBlocks, ring[..], cacheSize, nextInsertPos, id, content);
      MissTouches(file, maxBlocks, ring[..], cacheSize, nextInsertPos, id, content);
      var entry := CreateCachedBlock(id);
      r, data := 1, buffer;
      if id < |file| {
        r, data := 0, file[id];
        ring[entry] := ring[entry].(content := data);
      }
      assert ring[..] == old(ring[..])[entry := Entry(id, false, content)];
      SlotIs(ring[..], cacheSize, id, entry);
    }

    // ----- byte ranges

    ghost predicate SameSetup(max: nat, kind: nat, enabled: bool)
      reads this, ring
    {
      Valid() && maxBlocks == max && diskType == kind && cacheEnabled == enabled
    }

    /** The byte range is refused: it is negative, or it reaches the last byte of
        the disk. */
    predicate OutOfRange(start: int, nbytes: int)
      reads this`maxBlocks
    {
      start < 0 || start + nbytes < start || start + nbytes >= maxBlocks * BLOCK_SIZE
    }

    /** Reads nbytes bytes from the flat address start into buffer, and reports the
        latency. */
    method Read(start: int, nbytes: int, buffer: array<Byte>) returns (r: int, latency: nat)
      requires Valid() && nbytes <= buffer.Length && buffer as object != ring
      modifies this, ring, buffer
      ensures SameSetup(old(maxBlocks), old(diskType), old(cacheEnabled)) && ring == old(ring)
      ensures Contents() == old(Contents())
      ensures r == if OutOfRange(start, nbytes) then 1 else 0
      ensures r == 1 ==> buffer[..] == old(buffer[..]) && latency == 0
      ensures r == 0 ==> AllWhole(Contents()) && buffer[..] == Overlay(old(buffer[..]), 0, Flat(Contents())[start..start + nbytes])
      ensures r == 0 ==>
        var ids := TouchedIds(start, nbytes);
        var n, m := |ids|, if cacheEnabled then Misses(old(Resident()), ids) else |ids|;
        && latency == n + (if diskType != 0 || m == 0 then 0 else HDD_SEEK + m)
        && (cacheEnabled ==> Resident() == TouchAll(old(Resident()), ids))
    {
      if OutOfRange(start, nbytes) {
        return 1, 0;
      }
      ContentsWhole();
      var hits, misses := ReadRounds(start, nbytes, buffer);
      latency := ReadLatency(hits, misses);
      r := 0;
    }

    lemma ContentsWhole()
      requires Valid()
      ensures AllWhole(Contents())
    {
      if cacheEnabled {
        forall id: nat | id < maxBlocks ensures |Contents()[id]| == BLOCK_SIZE {
          var i := Slot(ring[..], cacheSize, id);
          if i >= 0 {
            assert EntryOk(file, maxBlocks, ring[..][i]);
          }
        }
      }
    }

    method ReadRounds(start: nat, nbytes: nat, buffer: array<Byte>) returns (hits: nat, misses: nat)
      requires Valid() && AllWhole(Contents()) && nbytes <= buffer.Length && buffer as object != ring
      requires start + nbytes < maxBlocks * BLOCK_SIZE
      modifies this, ring, buffer
      ensures SameSetup(old(maxBlocks), old(diskType), old(cacheEnabled)) && ring == old(ring)
      ensures Contents() == old(Contents())
      ensures buffer[..] == Overlay(old(buffer[..]), 0, Flat(Contents())[start..start + nbytes])
      ensures hits + misses == |TouchedIds(start, nbytes)| && misses == old(ReadMisses(TouchedIds(start, nbytes)))
      ensures cacheEnabled ==> Resident() == TouchAll(old(Resident()), TouchedIds(start, nbytes))
    {
      hide Accessible, Contents, Flat, Overlay, AllWhole, Resident, TouchedIds, ReadMisses, ResidentAfter, Rounds, IdRange, TouchAll;
      ghost var before, c, ids := buffer[..], Contents(), TouchedIds(start, nbytes);
      TouchedInRounds(start, nbytes);
      AfterIs(ids);
      var blockId: nat, remaining, offset := start / BLOCK_SIZE, nbytes, start % BLOCK_SIZE;
      var tempBuffer := Zeros(BLOCK_SIZE);
      var bytesCompleted := 0;
      hits, misses := 0, 0;
      while remaining != 0
        invariant 0 <= remaining && bytesCompleted + remaining == nbytes && 0 <= offset < BLOCK_SIZE
        invariant remaining != 0 ==> start + bytesCompleted == BLOCK_SIZE * blockId + offset
        invariant SameSetup(old(maxBlocks), old(diskType), old(cacheEnabled)) && ring == old(ring) && Contents() == c
        invariant |tempBuffer| == BLOCK_SIZE
        invariant buffer[..] == Overlay(before, 0, Flat(c)[start..start + bytesCompleted])
        invariant hits + misses + Rounds(remaining, offset) == |ids|
        invariant misses + ReadMisses(IdRange(blockId, Rounds(remaining, offset))) == old(ReadMisses(ids))
        invariant ResidentAfter(IdRange(blockId, Rounds(remaining, offset))) == old(ResidentAfter(ids))
      {
        var amount := ToCopy(remaining, offset);
        ghost var rest := IdRange(blockId + 1, Rounds(remaining - amount, 0));
        RoundTaken(remaining, offset, blockId);
        var ret;
        ret, tempBuffer := ReadPart(blockId, tempBuffer, offset, amount, buffer, bytesCompleted, before, start, rest);
        if ret == -1 {
          hits := hits + 1;
        } else {
          misses := misses + 1;
        }
        bytesCompleted := bytesCompleted + amount;
        remaining := remaining - amount;
        blockId := blockId + 1;
        offset := 0;
      }
      NothingLeft(blockId, offset);
    }

    /** After the last read nothing is left to miss. */
    lemma NothingLeft(id: nat, offset: nat)
      requires Valid() && offset < BLOCK_SIZE
      ensures IdRange(id, Rounds(0, offset)) == [] && Rounds(0, offset) == 0
      ensures ReadMisses([]) == 0 && (cacheEnabled ==> ResidentAfter([]) == Resident())
    {
    }

    lemma AfterIs(ids: seq<nat>)
      requires Valid()
      ensures cacheEnabled ==> ResidentAfter(ids) == TouchAll(Resident(), ids)
    {
    }

    /** One round of a read: amount bytes of block id, from offset on. */
    method ReadPart(id: nat, temp: seq<Byte>, offset: nat, amount: nat, buffer: array<Byte>, done: nat,
                    ghost before: seq<Byte>, ghost start: nat, ghost rest: seq<nat>)
      returns (ret: int, data: seq<Byte>)
      requires Valid() && AllWhole(Contents()) && id < maxBlocks && |temp| == BLOCK_SIZE && buffer as object != ring
      requires offset + amount <= BLOCK_SIZE && done + amount <= buffer.Length == |before|
      requires start + done == BLOCK_SIZE * id + offset && start + done + amount <= |Flat(Contents())|
      requires buffer[..] == Overlay(before, 0, Flat(Contents())[start..start + done])
      modifies this, ring, buffer
      ensures SameSetup(old(maxBlocks), old(diskType), old(cacheEnabled)) && ring == old(ring) && |data| == BLOCK_SIZE
      ensures Contents() == old(Contents())
      ensures old(ReadMisses([id] + rest)) == ReadMisses(rest) + if ret == -1 then 0 else 1
      ensures old(ResidentAfter([id] + rest)) == ResidentAfter(rest)
      ensures buffer[..] == Overlay(before, 0, Flat(Contents())[start..start + done + amount])
    {
      ret, data := ReadBlock(id, temp);
      ReadRoundDone(Contents(), before, buffer[..], start, done, id, offset, amount);
      CopyInto(buffer, done, data[offset..offset + amount]);
    }

    /** memcpy of src into buffer at offset off. */
    method CopyInto(buffer: array<Byte>, off: nat, src: seq<Byte>)
      requires off + |src| <= buffer.Length
      modifies buffer
      ensures buffer[..] == Overlay(old(buffer[..]), off, src)
    {
      ghost var before := buffer[..];
      var i := 0;
      while i < |src|
        invariant i <= |src|
        invariant forall k: nat :: k < buffer.Length ==> buffer[k] == if off <= k < off + i then src[k - off] else before[k]
      {
        buffer[off + i] := src[i];
        i := i + 1;
      }
    }

    method ReadLatency(hits: nat, misses: nat) returns (latency: nat)
      ensures latency == hits + misses + if diskType != 0 || misses == 0 then 0 else HDD_SEEK + misses
    {
      if diskType == 0 {
        if misses == 0 {
          latency := hits * MEMORY_LATENCY;
        } else {
          latency := hits * MEMORY_LATENCY + HDD_SEEK + misses * HDD_READ_LATENCY;
        }
      } else {
        latency := hits * MEMORY_LATENCY + misses * SSD_READ_LATENCY;
      }
    }

    method WriteLatency(hits: nat, misses: nat) returns (latency: nat)
      ensures latency == hits + misses + if diskType != 0 || misses == 0 then 0 else HDD_SEEK + misses
    {
      if diskType == 0 {
        if misses == 0 {
          latency := hits * MEMORY_LATENCY;
        } else {
          latency := hits * MEMORY_LATENCY + HDD_SEEK + misses * HDD_WRITE_LATENCY;
        }
      } else {
        latency := hits * MEMORY_LATENCY + misses * SSD_WRITE_LATENCY;
      }
    }

    /** Writes the first nbytes bytes of buffer to the flat address start, and
        reports the latency: n blocks are written, p of them are read before because
        they are touched only in part. */
    method Write(start: int, nbytes: int, buffer: seq<Byte>) returns (r: int, latency: nat)
      requires Valid() && nbytes <= |buffer|
      modifies this, ring
      ensures SameSetup(old(maxBlocks), old(diskType), old(cacheEnabled)) && ring == old(ring)
      ensures r == if OutOfRange(start, nbytes) then 1 else 0
      ensures r == 1 ==> Contents() == old(Contents()) && file == old(file) && ring[..] == old(ring[..]) && latency == 0
      ensures r == 0 ==> AllWhole(Contents()) && AllWhole(old(Contents()))
      ensures r == 0 ==> SplicedIn(Flat(old(Contents())), Flat(Contents()), start, buffer, nbytes)
      ensures r == 0 ==>
        var ids := TouchedIds(start, nbytes);
        var parts := Parts(ids, start, nbytes);
        var n, m := |ids|, if cacheEnabled then WriteMisses(old(Resident()), ids, start, nbytes) else |ids|;
        var p, q := |parts|, if cacheEnabled then Misses(old(Resident()), parts) else |parts|;
        && latency == p + (if diskType != 0 || q == 0 then 0 else HDD_SEEK + q)
                    + n + (if diskType != 0 || m == 0 then 0 else HDD_SEEK + m)
        && (cacheEnabled ==> Resident() == TouchAll(old(Resident()), parts))
    {
      if OutOfRange(start, nbytes) {
        return 1, 0;
      }
      ContentsWhole();
      var readHits, readMisses, writeHits, writeMisses := WriteRounds(start, nbytes, buffer);
      var readLatency := ReadLatency(readHits, readMisses);
      var writeLatency := WriteLatency(writeHits, writeMisses);
      r, latency := 0, readLatency + writeLatency;
    }

    method WriteRounds(start: nat, nbytes: nat, buffer: seq<Byte>)
      returns (readHits: nat, readMisses: nat, writeHits: nat, writeMisses: nat)
      requires Valid() && AllWhole(Contents()) && nbytes <= |buffer|
      requires start + nbytes < maxBlocks * BLOCK_SIZE
      modifies this, ring
      ensures SameSetup(old(maxBlocks), old(diskType), old(cacheEnabled)) && ring == old(ring)
      ensures AllWhole(Contents()) && SplicedIn(Flat(old(Contents())), Flat(Contents()), start, buffer, nbytes)
      ensures var ids := TouchedIds(start, nbytes);
        var parts := Parts(ids, start, nbytes);
        && writeHits + writeMisses == |ids| && writeMisses == old(WrittenMisses(ids, start, nbytes))
        && readHits + readMisses == |parts| && readMisses == old(ReadMisses(parts))
        && (cacheEnabled ==> Resident() == TouchAll(old(Resident()), parts))
    {
      hide Accessible, Contents, Flat, Overlay, SplicedIn, Resident, TouchedIds, ReadMisses, WrittenMisses, ResidentAfter,
        Rounds, IdRange, TouchAll, Parts, CoversBlock;
      ghost var c0, ids := Contents(), TouchedIds(start, nbytes);
      ghost var parts := Parts(ids, start, nbytes);
      TouchedInRounds(start, nbytes);
      AfterIs(parts);
      var blockId: nat, remaining, offset, bytesCompleted := start / BLOCK_SIZE, nbytes, start % BLOCK_SIZE, 0;
      var tempBuffer := Zeros(BLOCK_SIZE);
      readHits, readMisses, writeHits, writeMisses := 0, 0, 0, 0;
      NothingSpliced(Flat(c0), start, buffer);
      while remaining != 0
        invariant 0 <= remaining && bytesCompleted + remaining == nbytes && 0 <= offset < BLOCK_SIZE
        invariant remaining != 0 ==> start + bytesCompleted == BLOCK_SIZE * blockId + offset && (offset == 0 || bytesCompleted == 0)
        invariant SameSetup(old(maxBlocks), old(diskType), old(cacheEnabled)) && ring == old(ring)
        invariant AllWhole(Contents()) && SplicedIn(Flat(c0), Flat(Contents()), start, buffer, bytesCompleted)
        invariant |tempBuffer| == BLOCK_SIZE
        invariant readHits + readMisses + |Parts(IdRange(blockId, Rounds(remaining, offset)), start, nbytes)| == |parts|
        invariant readMisses + ReadMisses(Parts(IdRange(blockId, Rounds(remaining, offset)), start, nbytes)) == old(ReadMisses(parts))
        invariant ResidentAfter(Parts(IdRange(blockId, Rounds(remaining, offset)), start, nbytes)) == old(ResidentAfter(parts))
        invariant writeHits + writeMisses + Rounds(remaining, offset) == |ids|
        invariant writeMisses + WrittenMisses(IdRange(blockId, Rounds(remaining, offset)), start, nbytes)
               == old(WrittenMisses(ids, start, nbytes))
      {
        var amount := ToCopy(remaining, offset);
        ghost var rest := IdRange(blockId + 1, Rounds(remaining - amount, 0));
        RoundTaken(remaining, offset, blockId);
        WholeRound(start, nbytes, bytesCompleted, blockId, offset);
        NextPart(blockId, rest, start, nbytes);
        FlatRound(c0, Contents(), start, buffer, bytesCompleted, blockId, offset,
                  if amount == BLOCK_SIZE then tempBuffer else Contents()[blockId], amount);
        if amount != BLOCK_SIZE {
          var readRet, writeRet;
          readRet, writeRet, tempBuffer := WritePart(blockId, tempBuffer, offset, buffer[bytesCompleted..bytesCompleted + amount], rest, start, nbytes);
          if readRet == -1 {
            readHits := readHits + 1;
          } else {
            readMisses := readMisses + 1;
          }
          if writeRet == -1 {
            writeHits := writeHits + 1;
          } else {
            writeMisses := writeMisses + 1;
          }
        } else {
          OverlayAll(tempBuffer, buffer[bytesCompleted..bytesCompleted + amount]);
          var writeRet := WriteWhole(blockId, buffer[bytesCompleted..bytesCompleted + amount], rest, start, nbytes);
          if writeRet == -1 {
            writeHits := writeHits + 1;
          } else {
            writeMisses := writeMisses + 1;
          }
        }
        bytesCompleted := bytesCompleted + amount;
        remaining := remaining - amount;
        blockId := blockId + 1;
        offset := 0;
      }
      NothingLeft(blockId, offset);
      NoPartLeft(start, nbytes);
    }

    lemma NoPartLeft(start: nat, nbytes: nat)
      requires Valid()
      ensures Parts([], start, nbytes) == [] && WrittenMisses([], start, nbytes) == 0
    {
    }

    /** A block that is only partly written is read first; with a cache, that makes
        the write a hit. */
    method WritePart(id: nat, temp: seq<Byte>, offset: nat, part: seq<Byte>, ghost rest: seq<nat>, ghost start: nat, ghost nbytes: nat)
      returns (readRet: int, writeRet: int, data: seq<Byte>)
      requires Valid() && id < maxBlocks && |temp| == BLOCK_SIZE && offset + |part| <= BLOCK_SIZE
      modifies this, ring
      ensures SameSetup(old(maxBlocks), old(diskType), old(cacheEnabled)) && ring == old(ring) && |data| == BLOCK_SIZE
      ensures |old(Contents())[id]| == BLOCK_SIZE
      ensures Contents() == old(Contents())[id := Overlay(old(Contents())[id], offset, part)]
      ensures writeRet == if cacheEnabled then -1 else 0
      ensures !cacheEnabled ==> readRet == 0
      ensures var parts := Parts(rest, start, nbytes);
        && old(ReadMisses([id] + parts)) == ReadMisses(parts) + (if readRet == -1 then 0 else 1)
        && old(ResidentAfter([id] + parts)) == ResidentAfter(parts)
      ensures !CoversBlock(start, nbytes, id) ==>
        old(WrittenMisses([id] + rest, start, nbytes)) == WrittenMisses(rest, start, nbytes) + if writeRet == -1 then 0 else 1
    {
      readRet, data := ReadBlock(id, temp);
      data := Overlay(data, offset, part);
      writeRet := WriteBlock(id, data);
    }

    /** A block that is written as a whole is not read, and nothing becomes resident. */
    method WriteWhole(id: nat, block: seq<Byte>, ghost rest: seq<nat>, ghost start: nat, ghost nbytes: nat) returns (writeRet: int)
      requires Valid() && id < maxBlocks && |block| == BLOCK_SIZE
      modifies this, ring
      ensures SameSetup(old(maxBlocks), old(diskType), old(cacheEnabled)) && ring == old(ring)
      ensures Contents() == old(Contents())[id := block]
      ensures var parts := Parts(rest, start, nbytes);
        old(ReadMisses(parts)) == ReadMisses(parts) && old(ResidentAfter(parts)) == ResidentAfter(parts)
      ensures CoversBlock(start, nbytes, id) ==>
        old(WrittenMisses([id] + rest, start, nbytes)) == WrittenMisses(rest, start, nbytes) + if writeRet == -1 then 0 else 1
    {
      if cacheEnabled {
        ResidentIffSlot(file, maxBlocks, ring[..], cacheSize, nextInsertPos, id);
      }
      writeRet := WriteBlock(id, block);
    }

    // ----- whole runs

    /** Any run of operations: the answers and the final bytes are those of a plain
        array of bytes, whatever caches were in use meanwhile. */
    method Serve(ops: seq<Op>) returns (answers: seq<Answer>)
      requires Valid() && AllProper(ops, maxBlocks, cacheEnabled)
      modifies this, ring
      ensures Valid() && AllWhole(Contents()) && AllWhole(old(Contents()))
      ensures Flat(Contents()) == AfterOps(Flat(old(Contents())), ops)
      ensures answers == AnswersOf(Flat(old(Contents())), ops)
    {
      hide Valid, Contents, Flat, AllWhole;
      answers := [];
      ContentsWhole();
      ghost var d0, max := Flat(Contents()), maxBlocks;
      var i := 0;
      while i < |ops|
        invariant i <= |ops| && Valid() && AllWhole(Contents()) && maxBlocks == max
        invariant ring == old(ring) || fresh(ring)
        invariant AllProper(ops[i..], max, cacheEnabled) && Agrees(d0, Flat(Contents()), ops, i, answers)
      {
        ghost var d := Flat(Contents());
        NextOp(d0, d, ops, i, answers);
        var answer := ServeOne(ops[i]);
        answers, i := answers + [answer], i + 1;
      }
    }

    method ServeOne(op: Op) returns (answer: Answer)
      requires Valid() && Proper(op, maxBlocks, cacheEnabled) && AllWhole(Contents())
      modifies this, ring
      ensures Valid() && AllWhole(Contents()) && maxBlocks == old(maxBlocks) && cacheEnabled == EnabledAfter(op, old(cacheEnabled))
      ensures ring == old(ring) || fresh(ring)
      ensures Flat(Contents()) == AfterOp(Flat(old(Contents())), op)
      ensures answer == AnswerOf(Flat(old(Contents())), op)
    {
      hide Accessible;
      match op {
        case ReadBytes(start, nbytes) => answer := ServeRead(start, nbytes);
        case WriteBytes(start, bytes) => answer := ServeWrite(start, bytes);
        case GetBlock(id) => answer := ServeGet(id);
        case PutBlock(id, block) => answer := ServePut(id, block);
        case OpenCache(nblocks) =>
          InitCache(nblocks);
          answer := Done;
        case CloseCache =>
          CloseCache();
          answer := Done;
      }
    }

    method ServeGet(id: nat) returns (answer: Answer)
      requires Valid() && AllWhole(Contents()) && id != maxBlocks
      modifies this, ring
      ensures SameSetup(old(maxBlocks), old(diskType), old(cacheEnabled)) && ring == old(ring)
      ensures Contents() == old(Contents()) && AllWhole(Contents())
      ensures answer == AnswerOf(Flat(Contents()), GetBlock(id))
    {
      FlatSlice(Contents(), id);
      var r, data := ReadBlock(id, Zeros(BLOCK_SIZE));
      answer := if r == 1 then Refused else Bytes(data);
    }

    method ServePut(id: nat, block: seq<Byte>) returns (answer: Answer)
      requires Valid() && AllWhole(Contents()) && id != maxBlocks && |block| == BLOCK_SIZE
      modifies this, ring
      ensures SameSetup(old(maxBlocks), old(diskType), old(cacheEnabled)) && ring == old(ring) && AllWhole(Contents())
      ensures Flat(Contents()) == AfterOp(Flat(old(Contents())), PutBlock(id, block))
      ensures answer == AnswerOf(Flat(old(Contents())), PutBlock(id, block))
    {
      FlatPut(Contents(), id, block);
      var r := WriteBlock(id, block);
      answer := if r == 1 then Refused else Done;
    }

    method ServeWrite(start: int, bytes: seq<Byte>) returns (answer: Answer)
      requires Valid() && AllWhole(Contents())
      modifies this, ring
      ensures SameSetup(old(maxBlocks), old(diskType), old(cacheEnabled)) && ring == old(ring) && AllWhole(Contents())
      ensures Flat(Contents()) == AfterOp(Flat(old(Contents())), WriteBytes(start, bytes))
      ensures answer == AnswerOf(Flat(old(Contents())), WriteBytes(start, bytes))
    {
      ghost var d := Flat(Contents());
      var r, latency := Write(start, |bytes|, bytes);
      if r == 0 {
        assert Flat(Contents()) == Overlay(d, start, bytes);
      }
      answer := if r == 0 then Done else Refused;
    }

    method ServeRead(start: int, nbytes: int) returns (answer: Answer)
      requires Valid() && AllWhole(Contents())
      modifies this, ring
      ensures SameSetup(old(maxBlocks), old(diskType), old(cacheEnabled)) && ring == old(ring)
      ensures Contents() == old(Contents()) && AllWhole(Contents())
      ensures answer == AnswerOf(Flat(Contents()), ReadBytes(start, nbytes))
    {
      var buffer := new Byte[if nbytes < 0 then 0 else nbytes];
      ghost var before := buffer[..];
      var r, latency := Read(start, nbytes, buffer);
      if r == 1 {
        return Refused;
      }
      OverlayAll(before, Flat(Contents())[start..start + nbytes]);
      answer := Bytes(buffer[..]);
    }
  }

  lemma FlatSlice(c: seq<seq<Byte>>, id: nat)
    requires AllWhole(c)
    ensures id < |c| ==> Flat(c)[BLOCK_SIZE * id..BLOCK_SIZE * (id + 1)] == c[id]
  {
    if id < |c| {
      forall k: nat | k < BLOCK_SIZE ensures Flat(c)[BLOCK_SIZE * id..BLOCK_SIZE * (id + 1)][k] == c[id][k] {
        FlatAt(c, id, k);
      }
    }
  }

  lemma FlatPut(c: seq<seq<Byte>>, id: nat, block: seq<Byte>)
    requires AllWhole(c) && |block| == BLOCK_SIZE
    ensures id < |c| ==> AllWhole(c[id := block]) && Flat(c[id := block]) == Overlay(Flat(c), BLOCK_SIZE * id, block)
  {
    if id < |c| {
      var c', d := c[id := block], Overlay(Flat(c), BLOCK_SIZE * id, block);
      forall p: nat | p < |d| ensures Flat(c')[p] == d[p] {
        assert Flat(c')[p] == c'[p / BLOCK_SIZE][p % BLOCK_SIZE];
        assert p == BLOCK_SIZE * (p / BLOCK_SIZE) + p % BLOCK_SIZE;
      }
    }
  }

  lemma NothingSpliced(d: seq<Byte>, start: nat, buf: seq<Byte>)
    requires start <= |d|
    ensures SplicedIn(d, d, start, buf, 0)
  {
  }

  lemma OverlayAll(temp: seq<Byte>, part: seq<Byte>)
    requires |temp| == |part|
    ensures Overlay(temp, 0, part) == part
  {
  }

  /** One round of a byte read: amount bytes of block id, from offset on. */
  lemma ReadRoundDone(c: seq<seq<Byte>>, before: seq<Byte>, buffer: seq<Byte>, start: nat, done: nat, id: nat, offset: nat, amount: nat)
    requires AllWhole(c) && id < |c| && offset + amount <= BLOCK_SIZE && start + done == BLOCK_SIZE * id + offset
    requires done + amount <= |before| && start + done + amount <= |Flat(c)|
    requires buffer == Overlay(before, 0, Flat(c)[start..start + done])
    ensures Overlay(buffer, done, c[id][offset..offset + amount]) == Overlay(before, 0, Flat(c)[start..start + done + amount])
  {
    var part, flat := c[id][offset..offset + amount], Flat(c)[start..start + done + amount];
    var l, r := Overlay(buffer, done, part), Overlay(before, 0, flat);
    forall k: nat | k < |before| ensures l[k] == r[k] {
      if done <= k < done + amount {
        FlatAt(c, id, start + k - BLOCK_SIZE * id);
        assert l[k] == part[k - done] && r[k] == flat[k];
      } else if k < done {
        assert l[k] == buffer[k] == Flat(c)[start..start + done][k];
        assert r[k] == flat[k];
      }
    }
  }

  lemma SameSlotAfter(ring: seq<Entry>, ring': seq<Entry>, n: nat, id: nat)
    requires n <= |ring| == |ring'| && Ids(ring') == Ids(ring)
    ensures Slot(ring', n, id) == Slot(ring, n, id)
  {
    forall k: nat | k < |ring| ensures ring'[k].blockId == ring[k].blockId {
      assert Ids(ring')[k] == Ids(ring)[k];
    }
  }

  lemma {:induction false} SlotFound(ring: seq<Entry>, n: nat, id: nat, i: nat)
    requires i < n <= |ring| && Slot(ring, i, id) == -1 && ring[i].blockId == id
    ensures Slot(ring, n, id) == i
  {
    if n > i + 1 {
      SlotFound(ring, n - 1, id, i);
    }
  }
}
