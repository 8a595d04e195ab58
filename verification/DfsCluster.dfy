/** The whole distributed file system: the namenode, the datanodes by address, and
    the operations of a client, with messages delivered as atomic steps. */
module DfsCluster {
  import opened DiskBytes
  import opened BlockPath
  import opened DfsModel
  import opened Options
  import opened DfsBlocks
  import opened Namenode

  /** A request to a datanode: 0 reads a block, 1 creates it, others do nothing. */
  datatype BlockRequest = BlockRequest(opType: nat, owner: string, blockId: nat, content: seq<Byte>)

  /** fwrite at a position of a file; a gap would be filled with zeros. */
  function FileWrite(file: seq<Byte>, at: nat, bytes: seq<Byte>): seq<Byte> {
    var f := if |file| < at then file + Zeros(at - |file|) else file;
    f[..at] + bytes + if at + |bytes| < |f| then f[at + |bytes|..] else []
  }

  lemma FileAppend(file: seq<Byte>, bytes: seq<Byte>)
    ensures FileWrite(file, |file|, bytes) == file + bytes
  {
  }

  // ----- what the system is meant to be: a map from names to files

  datatype Op =
    | RegisterOp(id: nat, addr: Addr)
    | PushOp(name: string, file: seq<Byte>, junk: seq<Byte>)
    | PullOp(name: string)
    | ModifyOp(name: string, local: seq<Byte>, size: nat, start: nat, end: nat, junk: seq<Byte>)

  datatype Reply = Accepted | Rejected | Rebuilt(bytes: seq<Byte>) | Unknown

  /** The number of datanodes, and the files in whole blocks. */
  datatype State = State(count: nat, files: Files)

  /** The rules: ids are registered in order, a datanode is there before a client
      comes, a name is pushed once, and a modify stays within the file or grows it
      without a gap. */
  ghost predicate Proper(s: State, op: Op) {
    match op
    case RegisterOp(id, addr) => 1 <= id && (id < MAX_DATANODE_NUM ==> id <= s.count + 1)
    case PushOp(name, file, junk) =>
      s.count > 0 && |junk| == DFS_BLOCK_SIZE && name !in s.files && BlocksFor(|file|) <= MAX_FILE_BLK_COUNT
    case PullOp(name) => s.count > 0
    case ModifyOp(name, local, size, start, end, junk) =>
      && s.count > 0 && |junk| == DFS_BLOCK_SIZE && name in s.files && |s.files[name]| % DFS_BLOCK_SIZE == 0
      && ModifyFits(s.files[name], size, start, end)
  }

  ghost function After(s: State, op: Op): State
    requires Proper(s, op)
  {
    match op
    case RegisterOp(id, addr) => if id == s.count + 1 && id < MAX_DATANODE_NUM then s.(count := id) else s
    case PushOp(name, file, junk) =>
      if |s.files| < MAX_FILE_COUNT then s.(files := s.files[name := Padded(file, junk)]) else s
    case PullOp(name) => s
    case ModifyOp(name, local, size, start, end, junk) =>
      s.(files := s.files[name := Modified(s.files[name], local, size, start, end, junk)])
  }

  ghost function ReplyTo(s: State, op: Op): Reply
    requires Proper(s, op)
  {
    match op
    case RegisterOp(_, _) => Accepted
    case PushOp(_, _, _) => if |s.files| < MAX_FILE_COUNT then Accepted else Rejected
    case PullOp(name) => if name in s.files then Rebuilt(s.files[name]) else Unknown
    case ModifyOp(_, _, _, _, _, _) => Accepted
  }

  ghost predicate AllProper(s: State, ops: seq<Op>)
    decreases |ops|
  {
    ops != [] ==> Proper(s, ops[0]) && AllProper(After(s, ops[0]), ops[1..])
  }

  ghost function AfterAll(s: State, ops: seq<Op>): State
    requires AllProper(s, ops)
    decreases |ops|
  {
    if ops == [] then s else AfterAll(After(s, ops[0]), ops[1..])
  }

  ghost function Replies(s: State, ops: seq<Op>): seq<Reply>
    requires AllProper(s, ops)
    decreases |ops|
  {
    if ops == [] then [] else [ReplyTo(s, ops[0])] + Replies(After(s, ops[0]), ops[1..])
  }

  /** data is the file, filled up to the next multiple of the block size. */
  ghost predicate WholeBlocksOf(file: seq<Byte>, data: seq<Byte>) {
    file <= data && |file| <= |data| < |file| + DFS_BLOCK_SIZE && |data| % DFS_BLOCK_SIZE == 0
  }

  lemma PaddedWhole(file: seq<Byte>, junk: seq<Byte>)
    requires |junk| == DFS_BLOCK_SIZE
    ensures WholeBlocksOf(file, Padded(file, junk))
  {
  }

  /** A file that was pushed is rebuilt by a later pull, whatever registrations and
      whatever operations on other files come in between: the result has whole
      blocks and begins with the file. */
  lemma {:induction false} PullAfterPush(s: State, name: string, file: seq<Byte>, junk: seq<Byte>, others: seq<Op>)
    requires |junk| == DFS_BLOCK_SIZE && name in s.files && s.files[name] == Padded(file, junk)
    requires forall op :: op in others && op.ModifyOp? ==> op.name != name
    requires AllProper(s, others + [PullOp(name)])
    ensures var replies := Replies(s, others + [PullOp(name)]);
      && replies != [] && replies[|replies| - 1].Rebuilt?
      && var bytes := replies[|replies| - 1].bytes;
         |bytes| == DFS_BLOCK_SIZE * BlocksFor(|file|) && WholeBlocksOf(file, bytes)
    decreases |others|
  {
    var ops := others + [PullOp(name)];
    if others == [] {
      assert ops[1..] == [];
    } else {
      assert ops[0] == others[0] && ops[1..] == others[1..] + [PullOp(name)];
      PullAfterPush(After(s, ops[0]), name, file, junk, others[1..]);
    }
  }

  /** After i operations the state is s, and the replies so far are those due. */
  ghost predicate Agrees(s0: State, s: State, ops: seq<Op>, i: nat, replies: seq<Reply>)
    requires i <= |ops| && AllProper(s0, ops)
  {
    && AllProper(s, ops[i..])
    && AfterAll(s, ops[i..]) == AfterAll(s0, ops)
    && replies + Replies(s, ops[i..]) == Replies(s0, ops)
  }

  lemma NextOp(s0: State, s: State, ops: seq<Op>, i: nat, replies: seq<Reply>)
    requires i < |ops| && AllProper(s0, ops) && Agrees(s0, s, ops, i, replies)
    ensures Proper(s, ops[i]) && Agrees(s0, After(s, ops[i]), ops, i + 1, replies + [ReplyTo(s, ops[i])])
  {
    assert ops[i..][1..] == ops[i + 1..];
  }

  class Cluster {
    const nn: NameServer
    var stores: Stores
    /** The files that were pushed, in whole blocks. */
    ghost var files: Files

    ghost predicate Valid()
      reads this, nn, nn.dnlist, nn.fileImages
    {
      && nn.Valid()
      && Reachable(Nodes(nn.dnlist[..], nn.dncnt), stores)
      && TableOk(nn.fileImages[..], stores, files)
    }

    constructor ()
      ensures Valid() && files == map[] && nn.dncnt == 0
      ensures fresh(nn) && fresh(nn.dnlist) && fresh(nn.fileImages)
    {
      nn := new NameServer();
      stores, files := map[], map[];
      new;
      NothingInUse(nn.fileImages[..], MAX_FILE_COUNT);
    }

    ghost function Abstract(): State
      reads this, nn
    {
      State(nn.dncnt, files)
    }

    // ----- the datanodes

    /** Overwrites the block file. */
    method CreateBlock(addr: Addr, owner: string, blockId: nat, content: seq<Byte>)
      requires addr in stores
      modifies this`stores
      ensures stores == Created(old(stores), addr, PathOf(owner, blockId), content)
    {
      var path := PathOf(owner, blockId);
      stores := stores[addr := stores[addr][path := content]];
    }

    method ReadBlock(addr: Addr, owner: string, blockId: nat) returns (content: seq<Byte>)
      requires addr in stores && PathOf(owner, blockId) in stores[addr]
      ensures content == stores[addr][PathOf(owner, blockId)]
    {
      content := stores[addr][PathOf(owner, blockId)];
    }

    /** The datanode at addr handles a request; a read fills the content of the
        request it sends back. */
    method Dispatch(addr: Addr, request: BlockRequest) returns (response: BlockRequest)
      requires addr in stores
      requires request.opType == 0 ==> PathOf(request.owner, request.blockId) in stores[addr]
      modifies this`stores
      ensures stores == if request.opType == 1
        then Created(old(stores), addr, PathOf(request.owner, request.blockId), request.content) else old(stores)
      ensures response == if request.opType == 0
        then request.(content := stores[addr][PathOf(request.owner, request.blockId)]) else request
    {
      response := request;
      if request.opType == 0 {
        var content := ReadBlock(addr, request.owner, request.blockId);
        response := request.(content := content);
      } else if request.opType == 1 {
        CreateBlock(addr, request.owner, request.blockId, request.content);
      }
    }

    /** A datanode process runs at addr and reports to the namenode. */
    method Register(id: nat, addr: Addr)
      requires Valid() && 1 <= id && (id < MAX_DATANODE_NUM ==> id <= nn.dncnt + 1)
      modifies this`stores, nn, nn.dnlist
      ensures Valid() && files == old(files)
      ensures nn.dncnt == if id == old(nn.dncnt) + 1 && id < MAX_DATANODE_NUM then id else old(nn.dncnt)
    {
      ghost var s, dns := stores, Nodes(nn.dnlist[..], nn.dncnt);
      if addr !in stores {
        stores := stores[addr := map[]];
      }
      StoreAdded(nn.fileImages[..], s, stores, files);
      nn.ValidIsCounted();
      nn.RegisterDatanode(id, addr);
      ghost var dns' := Nodes(nn.dnlist[..], nn.dncnt);
      forall k: nat | k < |dns'| ensures dns'[k].addr in stores {
        assert k != id - 1 ==> dns'[k] == dns[k];
      }
    }

    // ----- push

    /** Stores a local file that was not pushed before; false if the namenode has no
        room for it.  junk is what the send buffer happens to hold. */
    method Push(name: string, file: seq<Byte>, junk: seq<Byte>) returns (ok: bool)
      requires Valid() && nn.dncnt > 0 && |junk| == DFS_BLOCK_SIZE
      requires name !in files && BlocksFor(|file|) <= MAX_FILE_BLK_COUNT
      modifies this, nn.fileImages
      ensures Valid() && nn.dnlist[..] == old(nn.dnlist[..]) && nn.dncnt == old(nn.dncnt)
      ensures ok <==> |old(files)| < MAX_FILE_COUNT
      ensures files == if ok then old(files)[name := Padded(file, junk)] else old(files)
      ensures ok ==> WholeBlocksOf(file, files[name])
    {
      hide WholeBlocksOf, ImageOk, BlockOk, Padded, Sent;
      ghost var images, dns := nn.fileImages[..], Nodes(nn.dnlist[..], nn.dncnt);
      FreeEntry(images, files, stores, name);
      var response := nn.RequestsDispatcher(WriteRequest(name, |file|));
      if response.NoResponse? {
        return false;
      }
      Pushed(images, stores, files, dns, name, file, junk, FirstFree(images, |images|));
      SendFile(response.image, file, junk);
      PaddedWhole(file, junk);
      files := files[name := Padded(file, junk)];
      ok := true;
    }

    /** The loop of push. */
    method SendFile(image: FileImage, file: seq<Byte>, junk: seq<Byte>)
      requires |junk| == DFS_BLOCK_SIZE && image.blocknum == BlocksFor(|file|) <= |image.blocks|
      requires forall i: nat :: i < image.blocknum ==>
        image.blocks[i].addr in stores && image.blocks[i].owner == image.name && image.blocks[i].blockId == i
      modifies this`stores
      ensures stores == Sent(old(stores), image, Padded(file, junk), 0, image.blocknum)
    {
      var i := 0;
      while i < image.blocknum
        invariant i <= image.blocknum && stores.Keys == old(stores.Keys)
        invariant stores == Sent(old(stores), image, Padded(file, junk), 0, i)
      {
        var block := image.blocks[i];
        var content := PushChunk(file, block.blockId, junk);
        PaddedChunk(file, junk, i);
        var response := Dispatch(block.addr, BlockRequest(1, block.owner, block.blockId, content));
        i := i + 1;
      }
    }

    // ----- pull

    /** Rebuilds a file locally, block by block; None if the namenode does not know it. */
    method Pull(name: string) returns (result: Option<seq<Byte>>)
      requires Valid() && nn.dncnt > 0
      modifies this`stores, nn.fileImages
      ensures Valid() && stores == old(stores) && nn.fileImages[..] == old(nn.fileImages[..])
      ensures files == old(files) && nn.dnlist[..] == old(nn.dnlist[..])
      ensures result == if name in files then Some(files[name]) else None
    {
      var response := nn.RequestsDispatcher(ReadRequest(name));
      if response.NoResponse? {
        assert name !in files;
        return None;
      }
      var file := FetchFile(response.image, files[name]);
      result := Some(file);
    }

    /** The loop of pull. */
    method FetchFile(image: FileImage, ghost data: seq<Byte>) returns (file: seq<Byte>)
      requires ImageOk(image, stores, data)
      modifies this`stores
      ensures stores == old(stores) && file == data
    {
      file := [];
      var i := 0;
      while i < image.blocknum
        invariant i <= image.blocknum && stores == old(stores) && file == data[..DFS_BLOCK_SIZE * i]
      {
        var block := image.blocks[i];
        assert BlockOk(block, image.name, i, stores, Chunk(data, i));
        var response := Dispatch(block.addr, BlockRequest(0, block.owner, block.blockId, []));
        FileAppend(file, response.content);
        file := FileWrite(file, response.blockId * DFS_BLOCK_SIZE, response.content);
        i := i + 1;
      }
    }

    // ----- modify

    /** Sends bytes start..end of the local file to the blocks of a stored file, which
        grows to hold size bytes if it has to. */
    method Modify(name: string, local: seq<Byte>, size: nat, start: nat, end: nat, junk: seq<Byte>)
      requires Valid() && nn.dncnt > 0 && |junk| == DFS_BLOCK_SIZE
      requires name in files && ModifyFits(files[name], size, start, end)
      modifies this, nn.fileImages
      ensures Valid() && nn.dnlist[..] == old(nn.dnlist[..]) && nn.dncnt == old(nn.dncnt)
      ensures |old(files)[name]| % DFS_BLOCK_SIZE == 0
      ensures files == old(files)[name := Modified(old(files)[name], local, size, start, end, junk)]
    {
      ghost var images, dns := nn.fileImages[..], Nodes(nn.dnlist[..], nn.dncnt);
      ghost var k := Find(images, |images|, name);
      var response := nn.RequestsDispatcher(ModifyRequest(name, size));
      ModifiedOk(images, stores, files, dns, name, local, size, start, end, junk, k);
      SendRange(response.image, local, size, start, end, junk, images[k].value, files[name], dns);
      files := files[name := Modified(files[name], local, size, start, end, junk)];
    }

    /** The loop of modify. */
    method SendRange(image: FileImage, local: seq<Byte>, size: nat, start: nat, end: nat, junk: seq<Byte>,
                     ghost img: FileImage, ghost data: seq<Byte>, ghost dns: seq<DataNode>)
      requires |junk| == DFS_BLOCK_SIZE && ImageOk(img, stores, data) && dns != [] && Reachable(dns, stores)
      requires ModifyFits(data, size, start, end) && image == Updated(img, dns, size)
      modifies this`stores
      ensures |data| % DFS_BLOCK_SIZE == 0
      ensures var first, last := start / DFS_BLOCK_SIZE, start / DFS_BLOCK_SIZE + SentBlocks(start, end);
        var data' := Modified(data, local, size, start, end, junk);
        last <= |image.blocks| && DFS_BLOCK_SIZE * last <= |data'| && stores == Sent(old(stores), image, data', first, last)
    {
      hide Modified, ImageOk, BlockOk, ModifyChunk, Updated;
      WholeBlocks(img, stores, data);
      UpdatedEntry(img, stores, data, dns, size, 0);
      ghost var s, data' := stores, Modified(data, local, size, start, end, junk);
      var first := start / DFS_BLOCK_SIZE;
      var currentId, dataSent, i := first, 0, 0;
      while dataSent < end - start
        invariant i <= SentBlocks(start, end) && dataSent == DFS_BLOCK_SIZE * i && currentId == first + i
        invariant stores.Keys == s.Keys && stores == Sent(s, image, data', first, first + i)
      {
        assert i < SentBlocks(start, end);
        UpdatedEntry(img, s, data, dns, size, currentId);
        SentChunk(data, local, size, start, end, junk, currentId);
        var content := ModifyChunk(local, start, end, i, junk);
        var response := Dispatch(image.blocks[currentId].addr, BlockRequest(1, image.name, currentId, content));
        currentId, dataSent, i := currentId + 1, dataSent + DFS_BLOCK_SIZE, i + 1;
      }
    }

    // ----- whole runs

    /** Any run of registrations and client operations gives the replies, and leaves
        the files, of a plain map from names to bytes. */
    method Serve(ops: seq<Op>) returns (replies: seq<Reply>)
      requires Valid() && AllProper(Abstract(), ops)
      modifies this, nn, nn.dnlist, nn.fileImages
      ensures Valid() && Abstract() == AfterAll(old(Abstract()), ops)
      ensures replies == Replies(old(Abstract()), ops)
    {
      hide Valid;
      replies := [];
      ghost var s0, s := Abstract(), Abstract();
      var i := 0;
      while i < |ops|
        invariant i <= |ops| && Valid() && s == Abstract() && Agrees(s0, s, ops, i, replies)
      {
        NextOp(s0, s, ops, i, replies);
        var reply := ServeOne(ops[i]);
        replies, s, i := replies + [reply], Abstract(), i + 1;
      }
    }

    method ServeOne(op: Op) returns (reply: Reply)
      requires Valid() && Proper(Abstract(), op)
      modifies this, nn, nn.dnlist, nn.fileImages
      ensures Valid() && Abstract() == After(old(Abstract()), op) && reply == ReplyTo(old(Abstract()), op)
    {
      match op {
        case RegisterOp(id, addr) =>
          Register(id, addr);
          reply := Accepted;
        case PushOp(name, file, junk) =>
          var ok := Push(name, file, junk);
          reply := if ok then Accepted else Rejected;
        case PullOp(name) =>
          var result := Pull(name);
          reply := if result.Some? then Rebuilt(result.value) else Unknown;
        case ModifyOp(name, local, size, start, end, junk) =>
          Modify(name, local, size, start, end, junk);
          reply := Accepted;
      }
    }
  }

  lemma {:induction false} NothingInUse(images: Images, n: nat)
    requires n <= |images| && forall k: nat :: k < |images| ==> images[k].None?
    ensures InUse(images, n) == 0
  {
    if n > 0 {
      NothingInUse(images, n - 1);
    }
  }

  /** A name that is not pushed has no entry; there is a free one if the table is
      not full. */
  lemma FreeEntry(images: Images, files: Files, stores: Stores, name: string)
    requires TableOk(images, stores, files) && name !in files
    ensures Find(images, |images|, name) == -1
    ensures FirstFree(images, |images|) >= 0 <==> |files| < |images|
  {
  }

  lemma StoreAdded(images: Images, stores: Stores, stores': Stores, files: Files)
    requires TableOk(images, stores, files)
    requires forall addr :: addr in stores ==> addr in stores' && stores'[addr] == stores[addr]
    ensures TableOk(images, stores', files)
  {
    forall k: nat | k < |images| && images[k].Some? ensures ImageOk(images[k].value, stores', files[images[k].value.name]) {
      var img, data := images[k].value, files[images[k].value.name];
      assert ImageOk(img, stores, data);
      forall i: nat | i < img.blocknum ensures BlockOk(img.blocks[i], img.name, i, stores', Chunk(data, i)) {
        assert BlockOk(img.blocks[i], img.name, i, stores, Chunk(data, i));
      }
    }
  }
}
