/** Where the bytes of the files are, on values: what sending blocks to datanodes
    does to their stores, and when the tables and the stores fit together. */
module DfsBlocks {
  import opened DiskBytes
  import opened BlockPath
  import opened DfsModel
  import opened Options

  /** Block i of a file of whole blocks. */
  function Chunk(data: seq<Byte>, i: nat): (r: seq<Byte>)
    requires DFS_BLOCK_SIZE * (i + 1) <= |data|
    ensures |r| == DFS_BLOCK_SIZE
  {
    data[DFS_BLOCK_SIZE * i..DFS_BLOCK_SIZE * (i + 1)]
  }

  /** A create request: the block file is written on the datanode at addr. */
  function Created(stores: Stores, addr: Addr, path: string, bytes: seq<Byte>): (r: Stores)
    ensures r.Keys == stores.Keys
  {
    if addr in stores then stores[addr := stores[addr][path := bytes]] else stores
  }

  /** Block i of the file is stored where its entry says, with these bytes. */
  ghost predicate BlockOk(b: BlockInfo, name: string, i: nat, stores: Stores, bytes: seq<Byte>) {
    && b.owner == name && b.blockId == i && b.addr in stores
    && PathOf(name, i) in stores[b.addr] && stores[b.addr][PathOf(name, i)] == bytes
  }

  /** The entry is complete, and all blocks of the file are stored. */
  ghost predicate ImageOk(img: FileImage, stores: Stores, data: seq<Byte>) {
    && |img.blocks| == MAX_FILE_BLK_COUNT && img.blocknum <= MAX_FILE_BLK_COUNT
    && img.blocknum == BlocksFor(img.size) && |data| == DFS_BLOCK_SIZE * img.blocknum
    && forall i: nat {:trigger Chunk(data, i)} :: i < img.blocknum ==> BlockOk(img.blocks[i], img.name, i, stores, Chunk(data, i))
  }

  /** The stores after blocks from..till of a file were sent to the datanodes. */
  function Sent(stores: Stores, img: FileImage, data: seq<Byte>, from: nat, till: nat): (r: Stores)
    requires from <= till <= |img.blocks| && DFS_BLOCK_SIZE * till <= |data|
    ensures r.Keys == stores.Keys
    decreases till
  {
    if from == till then stores
    else Created(Sent(stores, img, data, from, till - 1), img.blocks[till - 1].addr, PathOf(img.name, till - 1), Chunk(data, till - 1))
  }

  /** Sending some blocks of one file leaves all other stored blocks alone. */
  lemma {:induction false} SentAside(stores: Stores, img: FileImage, data: seq<Byte>, from: nat, till: nat,
                                     b: BlockInfo, name: string, i: nat, bytes: seq<Byte>)
    requires from <= till <= |img.blocks| && DFS_BLOCK_SIZE * till <= |data|
    requires BlockOk(b, name, i, stores, bytes) && (name != img.name || !(from <= i < till))
    ensures BlockOk(b, name, i, Sent(stores, img, data, from, till), bytes)
    decreases till
  {
    if from < till {
      SentAside(stores, img, data, from, till - 1, b, name, i, bytes);
      PathInjective(name, i, img.name, till - 1);
    }
  }

  /** The blocks that were sent are stored. */
  lemma {:induction false} SentStored(stores: Stores, img: FileImage, data: seq<Byte>, from: nat, till: nat, i: nat)
    requires from <= i < till <= |img.blocks| && DFS_BLOCK_SIZE * till <= |data|
    requires img.blocks[i].owner == img.name && img.blocks[i].blockId == i && img.blocks[i].addr in stores
    ensures BlockOk(img.blocks[i], img.name, i, Sent(stores, img, data, from, till), Chunk(data, i))
    decreases till
  {
    if i < till - 1 {
      SentStored(stores, img, data, from, till - 1, i);
      PathInjective(img.name, i, img.name, till - 1);
    }
  }

  // ----- the tables and the stores together

  type Files = map<string, seq<Byte>>

  /** The file table lists exactly the given files, and their bytes are stored. */
  ghost predicate TableOk(images: Images, stores: Stores, files: Files) {
    && DistinctNames(images) && InUse(images, |images|) == |files|
    && (forall k: nat :: k < |images| && images[k].Some? ==>
         images[k].value.name in files && ImageOk(images[k].value, stores, files[images[k].value.name]))
    && (forall name :: name in files ==> Find(images, |images|, name) >= 0)
  }

  /** All registered datanodes can be reached. */
  ghost predicate Reachable(dns: seq<DataNode>, stores: Stores) {
    forall k: nat :: k < |dns| ==> dns[k].addr in stores
  }

  lemma FindAfter(images: Images, k: nat, img: FileImage, name: string)
    requires k < |images| && DistinctNames(images) && DistinctNames(images[k := Some(img)])
    requires images[k].Some? ==> images[k].value.name == img.name
    requires Find(images, |images|, name) >= 0 || name == img.name
    ensures Find(images[k := Some(img)], |images|, name) >= 0
  {
    var images' := images[k := Some(img)];
    var r := Find(images, |images|, name);
    if name == img.name {
      FindIs(images', k, name);
    } else {
      FindIs(images', r, name);
    }
  }

  /** The stored blocks of all files except one are still stored. */
  ghost predicate OthersKept(stores: Stores, stores': Stores, except: string) {
    forall b, name, i: nat, bytes {:trigger BlockOk(b, name, i, stores', bytes)} ::
      name != except && BlockOk(b, name, i, stores, bytes) ==> BlockOk(b, name, i, stores', bytes)
  }

  lemma ImageKept(img: FileImage, stores: Stores, stores': Stores, data: seq<Byte>, except: string)
    requires ImageOk(img, stores, data) && OthersKept(stores, stores', except) && img.name != except
    ensures ImageOk(img, stores', data)
  {
    forall i: nat | i < img.blocknum ensures BlockOk(img.blocks[i], img.name, i, stores', Chunk(data, i)) {
      assert BlockOk(img.blocks[i], img.name, i, stores, Chunk(data, i));
    }
  }

  lemma OtherNames(images: Images, k: nat, img: FileImage, files: Files)
    requires DistinctNames(images) && k < |images|
    requires forall j: nat :: j < |images| && images[j].Some? ==> images[j].value.name in files
    requires if images[k].Some? then images[k].value.name == img.name else img.name !in files
    ensures forall j: nat :: j < |images| && j != k && images[j].Some? ==> images[j].value.name != img.name
    ensures DistinctNames(images[k := Some(img)])
  {
  }

  /** Entry k becomes img, whose blocks are stored; the other files are untouched. */
  lemma TableUpdated(images: Images, stores: Stores, files: Files, k: nat, img: FileImage, stores': Stores, data: seq<Byte>)
    requires TableOk(images, stores, files) && k < |images|
    requires if images[k].Some? then images[k].value.name == img.name else img.name !in files
    requires ImageOk(img, stores', data) && OthersKept(stores, stores', img.name)
    ensures TableOk(images[k := Some(img)], stores', files[img.name := data])
  {
    hide ImageOk, OthersKept, BlockOk, Find, InUse, DistinctNames;
    var images', files' := images[k := Some(img)], files[img.name := data];
    InUseAdded(images, |images|, k, img);
    NameCount(files, img.name, data);
    OtherNames(images, k, img, files);
    forall j: nat | j < |images| && j != k && images[j].Some?
      ensures images[j].value.name != img.name && ImageOk(images[j].value, stores', files[images[j].value.name])
    {
      ImageKept(images[j].value, stores, stores', files[images[j].value.name], img.name);
    }
    forall name | name in files' ensures Find(images', |images'|, name) >= 0 {
      FindAfter(images, k, img, name);
    }
  }

  lemma NameCount(files: Files, name: string, data: seq<Byte>)
    ensures |files[name := data]| == |files| + if name in files then 0 else 1
  {
    assert files[name := data].Keys == files.Keys + {name};
    assert |files[name := data].Keys| == |files[name := data]| && |files.Keys| == |files|;
  }

  lemma OthersAside(stores: Stores, img: FileImage, data: seq<Byte>, from: nat, till: nat)
    requires from <= till <= |img.blocks| && DFS_BLOCK_SIZE * till <= |data|
    ensures OthersKept(stores, Sent(stores, img, data, from, till), img.name)
  {
    var stores' := Sent(stores, img, data, from, till);
    forall b, name, i: nat, bytes | name != img.name && BlockOk(b, name, i, stores, bytes)
      ensures BlockOk(b, name, i, stores', bytes)
    {
      SentAside(stores, img, data, from, till, b, name, i, bytes);
    }
  }

  // ----- push

  /** The block that push sends: the bytes of the local file at the block's place;
      what a short read at the end leaves in the buffer is arbitrary. */
  function PushChunk(file: seq<Byte>, id: nat, junk: seq<Byte>): (r: seq<Byte>)
    requires |junk| == DFS_BLOCK_SIZE
    ensures |r| == DFS_BLOCK_SIZE
  {
    seq(DFS_BLOCK_SIZE, j requires 0 <= j < DFS_BLOCK_SIZE =>
      if DFS_BLOCK_SIZE * id + j < |file| then file[DFS_BLOCK_SIZE * id + j] else junk[j])
  }

  /** The file in whole blocks. */
  function Padded(file: seq<Byte>, junk: seq<Byte>): (r: seq<Byte>)
    requires |junk| == DFS_BLOCK_SIZE
    ensures |r| == DFS_BLOCK_SIZE * BlocksFor(|file|) && file <= r
  {
    var r := seq(DFS_BLOCK_SIZE * BlocksFor(|file|), p requires 0 <= p < DFS_BLOCK_SIZE * BlocksFor(|file|) =>
      if p < |file| then file[p] else junk[p % DFS_BLOCK_SIZE]);
    assert file == r[..|file|];
    r
  }

  lemma PaddedChunk(file: seq<Byte>, junk: seq<Byte>, i: nat)
    requires |junk| == DFS_BLOCK_SIZE && i < BlocksFor(|file|)
    ensures Chunk(Padded(file, junk), i) == PushChunk(file, i, junk)
  {
    forall j: nat | j < DFS_BLOCK_SIZE ensures Chunk(Padded(file, junk), i)[j] == PushChunk(file, i, junk)[j] {
      assert (DFS_BLOCK_SIZE * i + j) % DFS_BLOCK_SIZE == j;
    }
  }

  /** A first push enters the file and stores its blocks. */
  lemma Pushed(images: Images, stores: Stores, files: Files, dns: seq<DataNode>, name: string, file: seq<Byte>, junk: seq<Byte>, k: nat)
    requires TableOk(images, stores, files) && Reachable(dns, stores) && dns != [] && |junk| == DFS_BLOCK_SIZE
    requires name !in files && BlocksFor(|file|) <= MAX_FILE_BLK_COUNT && k < |images| && images[k].None?
    ensures var img := Received(NewImage(name, |file|), dns, |file|);
      TableOk(images[k := Some(img)], Sent(stores, img, Padded(file, junk), 0, img.blocknum), files[name := Padded(file, junk)])
  {
    var img, data := Received(NewImage(name, |file|), dns, |file|), Padded(file, junk);
    var stores' := Sent(stores, img, data, 0, img.blocknum);
    assert ImageOk(img, stores', data) by {
      forall i: nat | i < img.blocknum ensures BlockOk(img.blocks[i], name, i, stores', Chunk(data, i)) {
        AssignedReachable(dns, stores, name, i, i);
        SentStored(stores, img, data, 0, img.blocknum, i);
      }
    }
    OthersAside(stores, img, data, 0, img.blocknum);
    TableUpdated(images, stores, files, k, img, stores', data);
  }

  lemma AssignedReachable(dns: seq<DataNode>, stores: Stores, name: string, i: nat, id: nat)
    requires Reachable(dns, stores) && dns != []
    ensures BlockAt(dns, name, i, id).addr in stores
  {
    assert dns[i % |dns|].addr in stores;
  }

  // ----- modify

  /** How many blocks a modify of the bytes start..end sends. */
  function SentBlocks(start: nat, end: nat): (r: nat)
    requires start <= end
    ensures end - start <= DFS_BLOCK_SIZE * r < end - start + DFS_BLOCK_SIZE
  {
    (end - start + (DFS_BLOCK_SIZE - 1)) / DFS_BLOCK_SIZE
  }

  /** The i-th block that modify sends: bytes of the local file from start on, zeros
      past its end; what follows byte end in the last block is arbitrary. */
  function ModifyChunk(local: seq<Byte>, start: nat, end: nat, i: nat, junk: seq<Byte>): (r: seq<Byte>)
    requires |junk| == DFS_BLOCK_SIZE
    ensures |r| == DFS_BLOCK_SIZE
  {
    seq(DFS_BLOCK_SIZE, j requires 0 <= j < DFS_BLOCK_SIZE =>
      var p := start + DFS_BLOCK_SIZE * i + j;
      if p <= end then if p < |local| then local[p] else 0 else junk[j])
  }

  /** The number of blocks that a file of oldBlocks blocks has afterwards. */
  function GrownTo(oldBlocks: nat, size: nat): nat {
    if BlocksFor(size) > oldBlocks then BlocksFor(size) else oldBlocks
  }

  function BlocksAfter(data: seq<Byte>, size: nat): nat {
    GrownTo(|data| / DFS_BLOCK_SIZE, size)
  }

  /** The blocks that a modify sends exist, and all new blocks are among them. */
  predicate RangeFits(oldBlocks: nat, size: nat, start: nat, end: nat) {
    && start <= end && BlocksFor(size) <= MAX_FILE_BLK_COUNT
    && var first := start / DFS_BLOCK_SIZE;
    && first + SentBlocks(start, end) <= GrownTo(oldBlocks, size)
    && (GrownTo(oldBlocks, size) > oldBlocks ==>
         first <= oldBlocks && first + SentBlocks(start, end) == GrownTo(oldBlocks, size))
  }

  predicate ModifyFits(data: seq<Byte>, size: nat, start: nat, end: nat) {
    RangeFits(|data| / DFS_BLOCK_SIZE, size, start, end)
  }

  /** The bytes of the file after a modify. */
  function Modified(data: seq<Byte>, local: seq<Byte>, size: nat, start: nat, end: nat, junk: seq<Byte>): (r: seq<Byte>)
    requires |data| % DFS_BLOCK_SIZE == 0 && |junk| == DFS_BLOCK_SIZE && ModifyFits(data, size, start, end)
    ensures |r| == DFS_BLOCK_SIZE * BlocksAfter(data, size)
  {
    seq(DFS_BLOCK_SIZE * BlocksAfter(data, size), p requires 0 <= p < DFS_BLOCK_SIZE * BlocksAfter(data, size) =>
      var i := p / DFS_BLOCK_SIZE - start / DFS_BLOCK_SIZE;
      if 0 <= i < SentBlocks(start, end) then ModifyChunk(local, start, end, i, junk)[p % DFS_BLOCK_SIZE]
      else if p < |data| then data[p] else 0)
  }

  lemma WholeBlocks(img: FileImage, stores: Stores, data: seq<Byte>)
    requires ImageOk(img, stores, data)
    ensures |data| % DFS_BLOCK_SIZE == 0
  {
  }

  lemma ChunkAt(data: seq<Byte>, i: nat, j: nat)
    requires DFS_BLOCK_SIZE * (i + 1) <= |data| && j < DFS_BLOCK_SIZE
    ensures Chunk(data, i)[j] == data[DFS_BLOCK_SIZE * i + j]
    ensures (DFS_BLOCK_SIZE * i + j) / DFS_BLOCK_SIZE == i && (DFS_BLOCK_SIZE * i + j) % DFS_BLOCK_SIZE == j
  {
  }

  /** A block that modify sends. */
  lemma SentChunk(data: seq<Byte>, local: seq<Byte>, size: nat, start: nat, end: nat, junk: seq<Byte>, i: nat)
    requires |data| % DFS_BLOCK_SIZE == 0 && |junk| == DFS_BLOCK_SIZE && ModifyFits(data, size, start, end)
    requires start / DFS_BLOCK_SIZE <= i < start / DFS_BLOCK_SIZE + SentBlocks(start, end)
    ensures i < BlocksAfter(data, size)
    ensures Chunk(Modified(data, local, size, start, end, junk), i)
         == ModifyChunk(local, start, end, i - start / DFS_BLOCK_SIZE, junk)
  {
    var data' := Modified(data, local, size, start, end, junk);
    forall j: nat | j < DFS_BLOCK_SIZE
      ensures Chunk(data', i)[j] == ModifyChunk(local, start, end, i - start / DFS_BLOCK_SIZE, junk)[j]
    {
      ChunkAt(data', i, j);
    }
  }

  /** A block that modify does not send is an old one, and stays. */
  lemma UnsentChunk(data: seq<Byte>, local: seq<Byte>, size: nat, start: nat, end: nat, junk: seq<Byte>, i: nat)
    requires |data| % DFS_BLOCK_SIZE == 0 && |junk| == DFS_BLOCK_SIZE && ModifyFits(data, size, start, end)
    requires i < BlocksAfter(data, size) && !(start / DFS_BLOCK_SIZE <= i < start / DFS_BLOCK_SIZE + SentBlocks(start, end))
    ensures DFS_BLOCK_SIZE * (i + 1) <= |data|
    ensures Chunk(Modified(data, local, size, start, end, junk), i) == Chunk(data, i)
  {
    var data' := Modified(data, local, size, start, end, junk);
    forall j: nat | j < DFS_BLOCK_SIZE ensures Chunk(data', i)[j] == Chunk(data, i)[j] {
      ChunkAt(data', i, j);
      ChunkAt(data, i, j);
    }
  }

  lemma UpdatedEntry(img: FileImage, stores: Stores, data: seq<Byte>, dns: seq<DataNode>, size: nat, i: nat)
    requires ImageOk(img, stores, data) && Reachable(dns, stores) && dns != [] && BlocksFor(size) <= MAX_FILE_BLK_COUNT
    ensures var img' := Updated(img, dns, size);
      && img'.name == img.name && |img'.blocks| == MAX_FILE_BLK_COUNT
      && img'.blocknum == BlocksAfter(data, size) == BlocksFor(img'.size) <= MAX_FILE_BLK_COUNT
      && (i < img'.blocknum ==> img'.blocks[i].owner == img.name && img'.blocks[i].blockId == i && img'.blocks[i].addr in stores)
      && (i < img.blocknum ==> img'.blocks[i] == img.blocks[i])
  {
    if i < img.blocknum {
      assert BlockOk(img.blocks[i], img.name, i, stores, Chunk(data, i));
    } else if i < BlocksFor(size) {
      AssignedReachable(dns, stores, img.name, i, i);
    }
  }

  lemma ModifiedImage(img: FileImage, stores: Stores, data: seq<Byte>, dns: seq<DataNode>,
                      local: seq<Byte>, size: nat, start: nat, end: nat, junk: seq<Byte>)
    requires ImageOk(img, stores, data) && Reachable(dns, stores) && dns != [] && |junk| == DFS_BLOCK_SIZE
    requires ModifyFits(data, size, start, end)
    ensures var img', data' := Updated(img, dns, size), Modified(data, local, size, start, end, junk);
      var first := start / DFS_BLOCK_SIZE;
      var last := first + SentBlocks(start, end);
      && last <= img'.blocknum <= |img'.blocks| && DFS_BLOCK_SIZE * last <= |data'|
      && ImageOk(img', Sent(stores, img', data', first, last), data')
  {
    hide Sent;
    var img', data' := Updated(img, dns, size), Modified(data, local, size, start, end, junk);
    var first := start / DFS_BLOCK_SIZE;
    var last := first + SentBlocks(start, end);
    UpdatedEntry(img, stores, data, dns, size, 0);
    var stores' := Sent(stores, img', data', first, last);
    forall i: nat | i < img'.blocknum ensures BlockOk(img'.blocks[i], img'.name, i, stores', Chunk(data', i)) {
      UpdatedEntry(img, stores, data, dns, size, i);
      if first <= i < last {
        SentStored(stores, img', data', first, last, i);
      } else {
        UnsentChunk(data, local, size, start, end, junk, i);
        SentAside(stores, img', data', first, last, img.blocks[i], img.name, i, Chunk(data, i));
      }
    }
  }

  /** A modify updates the file and leaves all others alone. */
  lemma ModifiedOk(images: Images, stores: Stores, files: Files, dns: seq<DataNode>, name: string,
                   local: seq<Byte>, size: nat, start: nat, end: nat, junk: seq<Byte>, k: nat)
    requires TableOk(images, stores, files) && Reachable(dns, stores) && dns != [] && |junk| == DFS_BLOCK_SIZE
    requires name in files && k < |images| && images[k].Some? && images[k].value.name == name
    requires ModifyFits(files[name], size, start, end)
    ensures |files[name]| % DFS_BLOCK_SIZE == 0
    ensures var img', data' := Updated(images[k].value, dns, size), Modified(files[name], local, size, start, end, junk);
      var first := start / DFS_BLOCK_SIZE;
      var last := first + SentBlocks(start, end);
      && last <= img'.blocknum <= |img'.blocks| && DFS_BLOCK_SIZE * last <= |data'|
      && TableOk(images[k := Some(img')], Sent(stores, img', data', first, last), files[name := data'])
  {
    hide ImageOk, BlockOk, OthersKept, Modified, Updated, Sent, Find, InUse, DistinctNames;
    var img, data := images[k].value, files[name];
    WholeBlocks(img, stores, data);
    UpdatedEntry(img, stores, data, dns, size, 0);
    ModifiedImage(img, stores, data, dns, local, size, start, end, junk);
    var img', data' := Updated(img, dns, size), Modified(data, local, size, start, end, junk);
    var first := start / DFS_BLOCK_SIZE;
    OthersAside(stores, img', data', first, first + SentBlocks(start, end));
    TableUpdated(images, stores, files, k, img', Sent(stores, img', data', first, first + SentBlocks(start, end)), data');
  }

  // ----- what a modify achieves

  /** The bytes start..end of the file afterwards are those of the local file. */
  ghost predicate RangeWritten(data': seq<Byte>, local: seq<Byte>, start: nat, end: nat) {
    end < |data'| && end < |local| && forall p: nat :: start <= p <= end ==> data'[p] == local[p]
  }

  /** Whether a modify fits depends only on the number of blocks. */
  lemma FitsForAll(oldBlocks: nat, size: nat, start: nat, end: nat)
    requires RangeFits(oldBlocks, size, start, end)
    ensures forall data: seq<Byte> :: |data| == DFS_BLOCK_SIZE * oldBlocks ==> ModifyFits(data, size, start, end)
  {
  }

  /** Modify copies the range start..end of the local file to a file of oldBlocks
      blocks, whatever the two files hold, if and only if it starts at a block and
      is not one byte longer than whole blocks: the transfer loop counts end - start
      bytes, not one more. */
  lemma ModifyDelivers(oldBlocks: nat, size: nat, start: nat, end: nat)
    requires RangeFits(oldBlocks, size, start, end)
    ensures (forall data: seq<Byte>, local: seq<Byte>, junk: seq<Byte> ::
              |data| == DFS_BLOCK_SIZE * oldBlocks && |local| > end && |junk| == DFS_BLOCK_SIZE ==>
              RangeWritten(Modified(data, local, size, start, end, junk), local, start, end))
       <==> start % DFS_BLOCK_SIZE == 0 && (end - start) % DFS_BLOCK_SIZE != 0
  {
    FitsForAll(oldBlocks, size, start, end);
    if start % DFS_BLOCK_SIZE == 0 && (end - start) % DFS_BLOCK_SIZE != 0 {
      forall data: seq<Byte>, local: seq<Byte>, junk: seq<Byte> |
        |data| == DFS_BLOCK_SIZE * oldBlocks && |local| > end && |junk| == DFS_BLOCK_SIZE
        ensures RangeWritten(Modified(data, local, size, start, end, junk), local, start, end)
      {
        AlignedRange(data, local, size, start, end, junk);
      }
    } else {
      var data, local, junk := MisplacedRange(oldBlocks, size, start, end);
    }
  }

  lemma AlignedRange(data: seq<Byte>, local: seq<Byte>, size: nat, start: nat, end: nat, junk: seq<Byte>)
    requires |data| % DFS_BLOCK_SIZE == 0 && |junk| == DFS_BLOCK_SIZE && ModifyFits(data, size, start, end)
    requires start % DFS_BLOCK_SIZE == 0 && end < |local|
    requires (end - start) % DFS_BLOCK_SIZE != 0
    ensures RangeWritten(Modified(data, local, size, start, end, junk), local, start, end)
  {
    var data' := Modified(data, local, size, start, end, junk);
    forall p: nat | start <= p <= end ensures p < |data'| && data'[p] == local[p] {
      var i := p / DFS_BLOCK_SIZE - start / DFS_BLOCK_SIZE;
      assert 0 <= i < SentBlocks(start, end);
      assert start + DFS_BLOCK_SIZE * i + p % DFS_BLOCK_SIZE == p;
    }
  }

  /** What a modify does for any range: byte p of the local file arrives start mod
      1024 places too early, as far as whole blocks are sent; blocks that are not sent
      stay as they are. */
  lemma ModifyMoves(data: seq<Byte>, local: seq<Byte>, size: nat, start: nat, end: nat, junk: seq<Byte>, p: nat)
    requires |data| % DFS_BLOCK_SIZE == 0 && |junk| == DFS_BLOCK_SIZE && ModifyFits(data, size, start, end)
    ensures var data', early, sent := Modified(data, local, size, start, end, junk), start % DFS_BLOCK_SIZE,
                                      DFS_BLOCK_SIZE * SentBlocks(start, end);
      && |data'| >= |data| && size <= |data'| && start - early + sent <= |data'|
      && (start <= p < start + sent && p <= end ==> data'[p - early] == if p < |local| then local[p] else 0)
      && (p < |data| && !(start - early <= p < start - early + sent) ==> data'[p] == data[p])
  {
    var early, first := start % DFS_BLOCK_SIZE, start / DFS_BLOCK_SIZE;
    assert start - early == DFS_BLOCK_SIZE * first;
    if start <= p < start + DFS_BLOCK_SIZE * SentBlocks(start, end) && p <= end {
      var q := p - early;
      var i := q / DFS_BLOCK_SIZE - first;
      assert 0 <= i < SentBlocks(start, end) && start + DFS_BLOCK_SIZE * i + q % DFS_BLOCK_SIZE == p;
    }
  }

  /** Two files that show the range to be misplaced. */
  lemma MisplacedRange(oldBlocks: nat, size: nat, start: nat, end: nat)
    returns (data: seq<Byte>, local: seq<Byte>, junk: seq<Byte>)
    requires RangeFits(oldBlocks, size, start, end)
    requires start % DFS_BLOCK_SIZE != 0 || (end - start) % DFS_BLOCK_SIZE == 0
    ensures |data| == DFS_BLOCK_SIZE * oldBlocks && |local| > end && |junk| == DFS_BLOCK_SIZE
    ensures !RangeWritten(Modified(data, local, size, start, end, junk), local, start, end)
  {
    data := seq(DFS_BLOCK_SIZE * oldBlocks, _ => 1);
    junk := seq(DFS_BLOCK_SIZE, _ => 1);
    var q := if (end - start) % DFS_BLOCK_SIZE == 0 && start % DFS_BLOCK_SIZE == 0 then end else start;
    local := seq(end + 1, p => if p == q then 0 else 1);
    var data' := Modified(data, local, size, start, end, junk);
    var i := q / DFS_BLOCK_SIZE - start / DFS_BLOCK_SIZE;
    assert q < |data'| ==> data'[q] == 1 && local[q] == 0;
  }

  /** A modify of whole blocks replaces exactly the range by the bytes of the local
      file, or by zeros past its end. */
  lemma WholeBlocksSpliced(data: seq<Byte>, local: seq<Byte>, size: nat, start: nat, end: nat, junk: seq<Byte>)
    requires |data| % DFS_BLOCK_SIZE == 0 && |junk| == DFS_BLOCK_SIZE && ModifyFits(data, size, start, end)
    requires start % DFS_BLOCK_SIZE == 0 && (end + 1) % DFS_BLOCK_SIZE == 0
    ensures var data' := Modified(data, local, size, start, end, junk);
      |data'| >= |data| && forall p: nat {:trigger data'[p]} :: p < |data'| ==>
        if start <= p <= end then data'[p] == if p < |local| then local[p] else 0 else p < |data| && data'[p] == data[p]
  {
    var data' := Modified(data, local, size, start, end, junk);
    var n := SentBlocks(start, end);
    assert DFS_BLOCK_SIZE * n == end + 1 - start;
    forall p: nat | p < |data'|
      ensures if start <= p <= end then data'[p] == if p < |local| then local[p] else 0 else p < |data| && data'[p] == data[p]
    {
      var i := p / DFS_BLOCK_SIZE - start / DFS_BLOCK_SIZE;
      assert start <= p <= end <==> 0 <= i < n;
      assert start + DFS_BLOCK_SIZE * i + p % DFS_BLOCK_SIZE == p;
    }
  }
}
