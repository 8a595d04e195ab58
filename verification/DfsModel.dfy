/** The tables of the distributed file system, on values: how blocks are assigned
    to datanodes, and where the bytes of each file are. */
module DfsModel {
  import opened Arithmetic
  import opened DiskBytes
  import opened BlockPath
  import opened Options

  const MAX_FILE_COUNT: nat := 1000
  const MAX_DATANODE_NUM: nat := 10
  const MAX_FILE_BLK_COUNT: nat := 100

  datatype Addr = Addr(ip: string, port: int)
  datatype DataNode = DataNode(id: nat, addr: Addr)
  datatype BlockInfo = BlockInfo(owner: string, dnId: nat, blockId: nat, addr: Addr)
  datatype FileImage = FileImage(name: string, blocks: seq<BlockInfo>, size: nat, blocknum: nat)

  type Images = seq<Option<FileImage>>
  /** The block files of one datanode, by path. */
  type Store = map<string, seq<Byte>>
  /** The datanodes, by the address they listen on. */
  type Stores = map<Addr, Store>

  const NoBlock := BlockInfo("", 0, 0, Addr("", 0))

  /** The entry of a file right after it was created, with its memory cleared. */
  function NewImage(name: string, size: nat): FileImage {
    FileImage(name, seq(MAX_FILE_BLK_COUNT, _ => NoBlock), size, 0)
  }

  /** Blocks needed for a file of the given size: the fewest. */
  function BlocksFor(size: nat): (r: nat)
    ensures size <= DFS_BLOCK_SIZE * r < size + DFS_BLOCK_SIZE
  {
    (size + (DFS_BLOCK_SIZE - 1)) / DFS_BLOCK_SIZE
  }

  /** The block at index i of the list goes to the datanodes in turn. */
  function BlockAt(dns: seq<DataNode>, name: string, i: nat, id: nat): BlockInfo
    requires dns != []
  {
    BlockInfo(name, dns[i % |dns|].id, id, dns[i % |dns|].addr)
  }

  /** The list after the entries from..to were assigned, with ids from firstId on. */
  function Assigned(dns: seq<DataNode>, name: string, list: seq<BlockInfo>, from: nat, to: nat, firstId: nat): (r: seq<BlockInfo>)
    requires dns != []
    ensures |r| == |list|
    ensures forall i: nat {:trigger r[i]} :: i < |r| ==>
      r[i] == if from <= i < to then BlockAt(dns, name, i, firstId + (i - from)) else list[i]
  {
    seq(|list|, i requires 0 <= i < |list| => if from <= i < to then BlockAt(dns, name, i, firstId + (i - from)) else list[i])
  }

  /** The entry after a push of the given size: all blocks are assigned anew, with
      ids that start at the old number of blocks. */
  function Received(img: FileImage, dns: seq<DataNode>, size: nat): FileImage
    requires dns != []
  {
    img.(blocks := Assigned(dns, img.name, img.blocks, 0, BlocksFor(size), img.blocknum), blocknum := BlocksFor(size))
  }

  /** The entry after a modify with the given new size: only new blocks are assigned. */
  function Updated(img: FileImage, dns: seq<DataNode>, size: nat): FileImage
    requires dns != []
  {
    if size > img.size then
      img.(blocks := Assigned(dns, img.name, img.blocks, img.blocknum, BlocksFor(size), img.blocknum),
           blocknum := BlocksFor(size), size := size)
    else img
  }

  // ----- what the assignment achieves

  /** A first push followed by a growing modify leaves the same entry as one first
      push of the larger size. */
  lemma PushThenGrow(name: string, dns: seq<DataNode>, n1: nat, n2: nat)
    requires dns != [] && n1 <= n2
    ensures Updated(Received(NewImage(name, n1), dns, n1), dns, n2) == Received(NewImage(name, n2), dns, n2)
  {
    var img, whole := Updated(Received(NewImage(name, n1), dns, n1), dns, n2), Received(NewImage(name, n2), dns, n2);
    forall i: nat | i < MAX_FILE_BLK_COUNT ensures img.blocks[i] == whole.blocks[i] {
    }
  }

  /** In the entry of a file pushed once, block i has id i and is on datanode
      i mod n + 1, where n is the number of datanodes. */
  lemma FirstPushPlaces(name: string, dns: seq<DataNode>, size: nat, i: nat)
    requires dns != [] && (forall k: nat :: k < |dns| ==> dns[k].id == k + 1)
    requires i < BlocksFor(size) <= MAX_FILE_BLK_COUNT
    ensures var b := Received(NewImage(name, size), dns, size).blocks[i];
      b.blockId == i && b.dnId == i % |dns| + 1 && b.owner == name && b.addr == dns[i % |dns|].addr
  {
    assert dns[i % |dns|].id == i % |dns| + 1;
  }

  /** A modify that makes the file larger leaves the old blocks where they are; each
      new block i has id i and is on datanode i mod n + 1. */
  lemma GrowthPlaces(img: FileImage, dns: seq<DataNode>, size: nat, i: nat)
    requires dns != [] && (forall k: nat :: k < |dns| ==> dns[k].id == k + 1)
    requires size > img.size && BlocksFor(size) <= MAX_FILE_BLK_COUNT == |img.blocks| && img.blocknum == BlocksFor(img.size)
    ensures var img' := Updated(img, dns, size);
      && img'.name == img.name && img'.size == size && img'.blocknum >= img.blocknum
      && size <= DFS_BLOCK_SIZE * img'.blocknum < size + DFS_BLOCK_SIZE
      && (i < img.blocknum ==> img'.blocks[i] == img.blocks[i])
      && (img.blocknum <= i < img'.blocknum ==>
           var b := img'.blocks[i];
           b.blockId == i && b.dnId == i % |dns| + 1 && b.owner == img.name && b.addr == dns[i % |dns|].addr)
  {
    if i < MAX_FILE_BLK_COUNT {
      assert dns[i % |dns|].id == i % |dns| + 1;
    }
  }

  /** A push numbers block i as i if and only if the file had no blocks before. */
  lemma PushNumbersFromZero(img: FileImage, dns: seq<DataNode>, size: nat)
    requires dns != [] && |img.blocks| == MAX_FILE_BLK_COUNT && 0 < BlocksFor(size) <= MAX_FILE_BLK_COUNT
    ensures (forall i: nat :: i < BlocksFor(size) ==> Received(img, dns, size).blocks[i].blockId == i) <==> img.blocknum == 0
  {
    assert Received(img, dns, size).blocks[0].blockId == img.blocknum;
  }

  /** How many of the first n blocks of an entry are on datanode dn. */
  function BlocksOn(blocks: seq<BlockInfo>, n: nat, dn: nat): nat
    requires n <= |blocks|
  {
    if n == 0 then 0 else BlocksOn(blocks, n - 1, dn) + if blocks[n - 1].dnId == dn then 1 else 0
  }

  /** Each datanode holds the rounded-down or the rounded-up share of the blocks:
      the first blocknum mod n of the datanodes one block more than the others. */
  lemma {:induction false} Balanced(name: string, dns: seq<DataNode>, size: nat, n: nat, k: nat)
    requires dns != [] && (forall j: nat :: j < |dns| ==> dns[j].id == j + 1)
    requires n <= BlocksFor(size) <= MAX_FILE_BLK_COUNT && k < |dns|
    ensures BlocksOn(Received(NewImage(name, size), dns, size).blocks, n, k + 1) == Share(n, |dns|, k)
  {
    hide Received;
    if n > 0 {
      Balanced(name, dns, size, n - 1, k);
      FirstPushPlaces(name, dns, size, n - 1);
      ShareStep(n - 1, |dns|, k);
    }
  }

  /** The share of the k-th of m, when n things are dealt out in turn. */
  function Share(n: nat, m: nat, k: nat): nat
    requires m > 0
  {
    n / m + if k < n % m then 1 else 0
  }

  lemma ShareStep(n: nat, m: nat, k: nat)
    requires k < m
    ensures Share(n + 1, m, k) == Share(n, m, k) + if n % m == k then 1 else 0
  {
    DivStep(n, m);
  }

  // ----- the file table

  /** The first entry for the name, or -1. */
  function Find(images: Images, n: nat, name: string): (r: int)
    requires n <= |images|
    ensures -1 <= r < n
    ensures r >= 0 ==> images[r].Some? && images[r].value.name == name
    ensures r >= 0 ==> forall k: nat :: k < r ==> !(images[k].Some? && images[k].value.name == name)
    ensures r == -1 ==> forall k: nat :: k < n ==> !(images[k].Some? && images[k].value.name == name)
  {
    if n == 0 then -1
    else
      var r := Find(images, n - 1, name);
      if r >= 0 then r
      else if images[n - 1].Some? && images[n - 1].value.name == name then n - 1 else -1
  }

  /** The first free entry, or -1. */
  function FirstFree(images: Images, n: nat): (r: int)
    requires n <= |images|
    ensures -1 <= r < n
    ensures r >= 0 ==> images[r].None? && forall k: nat :: k < r ==> images[k].Some?
    ensures r == -1 ==> forall k: nat :: k < n ==> images[k].Some?
  {
    if n == 0 then -1
    else
      var r := FirstFree(images, n - 1);
      if r >= 0 then r else if images[n - 1].None? then n - 1 else -1
  }

  /** The number of entries in use. */
  function InUse(images: Images, n: nat): (r: nat)
    requires n <= |images|
    ensures r <= n
    ensures r == n <==> forall k: nat :: k < n ==> images[k].Some?
  {
    if n == 0 then 0 else InUse(images, n - 1) + if images[n - 1].Some? then 1 else 0
  }

  lemma {:induction false} InUseAdded(images: Images, n: nat, k: nat, img: FileImage)
    requires n <= |images| && k < |images|
    ensures InUse(images[k := Some(img)], n) == InUse(images, n) + if k < n && images[k].None? then 1 else 0
  {
    if n > 0 {
      InUseAdded(images, n - 1, k, img);
    }
  }

  ghost predicate DistinctNames(images: Images) {
    forall i: nat, j: nat :: i < j < |images| && images[i].Some? && images[j].Some? ==> images[i].value.name != images[j].value.name
  }

  lemma FindIs(images: Images, k: nat, name: string)
    requires DistinctNames(images) && k < |images| && images[k].Some? && images[k].value.name == name
    ensures Find(images, |images|, name) == k
  {
  }
}
