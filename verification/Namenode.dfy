/** The namenode: which datanodes there are, and where the blocks of each file go. */
module Namenode {
  import opened DfsModel
  import opened DiskBytes
  import opened Options

  type NodeList = seq<Option<DataNode>>

  /** How many of the first n places are taken. */
  function Registered(list: NodeList, n: nat): (r: nat)
    requires n <= |list|
    ensures r <= n && r == |Taken(list, n)|
    ensures r == 0 <==> forall k: nat :: k < n ==> list[k].None?
  {
    if n == 0 then 0
    else
      assert Taken(list, n) == Taken(list, n - 1) + if list[n - 1].Some? then {n - 1} else {};
      Registered(list, n - 1) + if list[n - 1].Some? then 1 else 0
  }

  ghost function Taken(list: NodeList, n: nat): set<nat>
    requires n <= |list|
  {
    set k: nat | k < n && list[k].Some?
  }

  /** The registered datanodes are those with the ids 1..count, in this order. */
  ghost predicate Contiguous(list: NodeList, count: nat) {
    && count <= |list|
    && forall k: nat :: k < |list| ==> (list[k].Some? <==> k < count) && (k < count ==> list[k].value.id == k + 1)
  }

  /** The registered datanodes. */
  function Nodes(list: NodeList, count: nat): (r: seq<DataNode>)
    requires Contiguous(list, count)
    ensures |r| == count && forall k: nat :: k < count ==> r[k].id == k + 1
  {
    seq(count, k requires 0 <= k < count => list[k].value)
  }

  lemma {:induction false} RegisteredIs(list: NodeList, count: nat, n: nat)
    requires Contiguous(list, count) && n <= |list|
    ensures Registered(list, n) == if n < count then n else count
  {
    if n > 0 {
      RegisteredIs(list, count, n - 1);
    }
  }

  /** A registration keeps the ids contiguous if and only if it is of a known
      datanode or of the next one. */
  lemma RegistrationKeepsContiguous(list: NodeList, count: nat, id: nat, addr: Addr)
    requires Contiguous(list, count) && 1 <= id <= |list|
    ensures var list' := list[id - 1 := Some(DataNode(id, addr))];
      Contiguous(list', Registered(list', |list'|)) <==> id <= count + 1
  {
    var list' := list[id - 1 := Some(DataNode(id, addr))];
    if id <= count + 1 {
      var count' := if id == count + 1 then id else count;
      RegisteredIs(list', count', |list'|);
    } else {
      assert list'[id - 1].Some? && list'[count].None?;
    }
  }

  lemma CountAfter(list: NodeList, count: nat, id: nat, addr: Addr)
    requires 1 <= id <= |list|
    ensures var list' := list[id - 1 := Some(DataNode(id, addr))];
      Contiguous(list, count) ==>
        && (Contiguous(list', Registered(list', |list'|)) <==> id <= count + 1)
        && (id <= count + 1 ==> Registered(list', |list'|) == if id == count + 1 then id else count)
  {
    if Contiguous(list, count) {
      RegistrationKeepsContiguous(list, count, id, addr);
      if id <= count + 1 {
        RegisteredIs(list[id - 1 := Some(DataNode(id, addr))], if id == count + 1 then id else count, |list|);
      }
    }
  }

  datatype Request = ReadRequest(name: string) | WriteRequest(name: string, size: nat) | QueryRequest | ModifyRequest(name: string, size: nat)
  datatype Response = FileResponse(image: FileImage) | SystemResponse(nodes: seq<DataNode>) | NoResponse

  class NameServer {
    /** Datanode n is at index n - 1. */
    const dnlist: array<Option<DataNode>>
    const fileImages: array<Option<FileImage>>
    /** The number of registered datanodes. */
    var dncnt: nat
    /** No client is served before the first datanode has registered. */
    var safeMode: bool

    ghost predicate Valid()
      reads this, dnlist, fileImages
    {
      && dnlist.Length == MAX_DATANODE_NUM && fileImages.Length == MAX_FILE_COUNT
      && Contiguous(dnlist[..], dncnt) && (safeMode <==> dncnt == 0)
      && forall k: nat :: k < MAX_FILE_COUNT && fileImages[k].Some? ==> |fileImages[k].value.blocks| == MAX_FILE_BLK_COUNT
    }

    /** What holds whatever ids were registered: the datanodes are counted, but there
        may be gaps. */
    ghost predicate Counted()
      reads this, dnlist, fileImages
    {
      && dnlist.Length == MAX_DATANODE_NUM && fileImages.Length == MAX_FILE_COUNT
      && dncnt == Registered(dnlist[..], MAX_DATANODE_NUM) && (safeMode <==> dncnt == 0)
      && forall k: nat :: k < MAX_FILE_COUNT && fileImages[k].Some? ==> |fileImages[k].value.blocks| == MAX_FILE_BLK_COUNT
    }

    lemma ValidIsCounted()
      ensures Valid() <==> Counted() && Contiguous(dnlist[..], dncnt)
    {
      if dnlist.Length == MAX_DATANODE_NUM && Contiguous(dnlist[..], dncnt) {
        RegisteredIs(dnlist[..], dncnt, MAX_DATANODE_NUM);
      }
    }

    constructor ()
      ensures Valid() && safeMode && fresh(dnlist) && fresh(fileImages)
      ensures forall k: nat :: k < MAX_FILE_COUNT ==> fileImages[k].None?
    {
      dnlist := new Option<DataNode>[MAX_DATANODE_NUM](_ => None);
      fileImages := new Option<FileImage>[MAX_FILE_COUNT](_ => None);
      dncnt, safeMode := 0, true;
    }

    /** A heartbeat of a datanode: it is entered under its id, unless the id is out
        of range.  The list stays without gaps exactly when it leaves none. */
    method RegisterDatanode(id: nat, addr: Addr)
      requires Counted() && 1 <= id
      modifies this, dnlist
      ensures Counted() && fileImages[..] == old(fileImages[..])
      ensures dnlist[..] == if id < MAX_DATANODE_NUM then old(dnlist[..])[id - 1 := Some(DataNode(id, addr))] else old(dnlist[..])
      ensures old(Valid()) ==>
        && (Valid() <==> id >= MAX_DATANODE_NUM || id <= old(dncnt) + 1)
        && (Valid() ==> dncnt == if id == old(dncnt) + 1 && id < MAX_DATANODE_NUM then id else old(dncnt))
    {
      ValidIsCounted();
      if id < MAX_DATANODE_NUM {
        ghost var before, count := dnlist[..], dncnt;
        ghost var list := before[id - 1 := Some(DataNode(id, addr))];
        CountAfter(before, count, id, addr);
        var pos := id - 1;
        dnlist[pos] := Some(DataNode(id, addr));
        assert dnlist[..] == list && list[pos].Some?;
        var i := 0;
        dncnt := 0;
        while i < MAX_DATANODE_NUM
          invariant i <= MAX_DATANODE_NUM && dnlist[..] == list && dncnt == Registered(list, i)
          invariant fileImages[..] == old(fileImages[..])
        {
          if dnlist[i].Some? {
            dncnt := dncnt + 1;
          }
          i := i + 1;
        }
        safeMode := false;
        ValidIsCounted();
      }
    }

    /** The index of the entry for the file, or the length of the table. */
    method FindImage(name: string) returns (k: nat)
      requires fileImages.Length == MAX_FILE_COUNT
      ensures var r := Find(fileImages[..], MAX_FILE_COUNT, name); k == if r == -1 then MAX_FILE_COUNT else r
    {
      k := 0;
      while k < fileImages.Length
        invariant k <= MAX_FILE_COUNT && Find(fileImages[..], k, name) == -1
      {
        if fileImages[k].Some? && fileImages[k].value.name == name {
          FindFound(fileImages[..], MAX_FILE_COUNT, name, k);
          return;
        }
        k := k + 1;
      }
    }

    /** The index of the first free entry, or the length of the table. */
    method FindFree() returns (k: nat)
      requires fileImages.Length == MAX_FILE_COUNT
      ensures var r := FirstFree(fileImages[..], MAX_FILE_COUNT); k == if r == -1 then MAX_FILE_COUNT else r
    {
      k := 0;
      while k < fileImages.Length
        invariant k <= MAX_FILE_COUNT && FirstFree(fileImages[..], k) == -1
      {
        if fileImages[k].None? {
          FreeFound(fileImages[..], MAX_FILE_COUNT, k);
          return;
        }
        k := k + 1;
      }
    }

    /** Assigns the blocks of a file that is pushed, creating its entry if there is
        none; NoResponse if the table is full. */
    method GetFileReceivers(name: string, size: nat) returns (response: Response)
      requires Valid() && dncnt > 0 && BlocksFor(size) <= MAX_FILE_BLK_COUNT
      modifies fileImages
      ensures Valid() && dnlist[..] == old(dnlist[..])
      ensures var images, dns := old(fileImages[..]), Nodes(dnlist[..], dncnt);
        var r, free := Find(images, MAX_FILE_COUNT, name), FirstFree(images, MAX_FILE_COUNT);
        if r == -1 && free == -1 then response == NoResponse && fileImages[..] == images
        else
          var k, img := if r >= 0 then r else free, if r >= 0 then images[r].value else NewImage(name, size);
          response == FileResponse(Received(img, dns, size)) && fileImages[..] == images[k := Some(Received(img, dns, size))]
      ensures response.FileResponse? ==>
        size <= DFS_BLOCK_SIZE * response.image.blocknum < size + DFS_BLOCK_SIZE
    {
      ghost var images := fileImages[..];
      var k := FindImage(name);
      if k == MAX_FILE_COUNT {
        k := FindFree();
        if k == MAX_FILE_COUNT {
          return NoResponse;
        }
        fileImages[k] := Some(NewImage(name, size));
      }
      ghost var img := fileImages[k].value;
      assert fileImages[..] == images[k := Some(img)];
      var blockCount := BlocksFor(size);
      var first := fileImages[k].value.blocknum;
      fileImages[k] := Some(fileImages[k].value.(blocknum := blockCount));
      AssignBlocks(k, 0, blockCount, first, name);
      response := FileResponse(fileImages[k].value);
    }

    /** Fills entries from..to of the block list of entry k, taking the datanodes in
        turn. */
    method AssignBlocks(k: nat, from: nat, to: nat, firstId: nat, name: string)
      requires Valid() && dncnt > 0 && k < MAX_FILE_COUNT && fileImages[k].Some? && to <= MAX_FILE_BLK_COUNT
      modifies fileImages
      ensures Valid() && dnlist[..] == old(dnlist[..])
      ensures var img := old(fileImages[k]).value;
        fileImages[..] == old(fileImages[..])[k :=
          Some(img.(blocks := Assigned(Nodes(dnlist[..], dncnt), name, img.blocks, from, to, firstId)))]
    {
      ghost var images, img, dns := fileImages[..], fileImages[k].value, Nodes(dnlist[..], dncnt);
      var next := from;
      NoneAssigned(dns, name, img.blocks, from, firstId);
      while next < to
        invariant from <= next && (if from <= to then next <= to else next == from) && dnlist[..] == old(dnlist[..])
        invariant fileImages[..] == images[k := Some(img.(blocks := Assigned(dns, name, img.blocks, from, next, firstId)))]
      {
        var dn := dnlist[next % dncnt].value;
        var block := BlockInfo(name, dn.id, firstId + (next - from), dn.addr);
        OneAssigned(dns, name, img.blocks, from, next, firstId);
        var entry := fileImages[k].value;
        fileImages[k] := Some(entry.(blocks := entry.blocks[next := block]));
        next := next + 1;
      }
      if from > to {
        NoneAssignedBelow(dns, name, img.blocks, from, to, firstId);
      }
    }

    /** The entry of a file that is pulled. */
    method GetFileLocation(name: string) returns (response: Response)
      requires Valid()
      ensures var r := Find(fileImages[..], MAX_FILE_COUNT, name);
        response == if r >= 0 then FileResponse(fileImages[r].value) else NoResponse
    {
      var k := FindImage(name);
      response := if k < MAX_FILE_COUNT then FileResponse(fileImages[k].value) else NoResponse;
    }

    /** The entry of a file that is modified, with blocks added if it is to grow. */
    method GetFileUpdatePoint(name: string, size: nat) returns (response: Response)
      requires Valid() && dncnt > 0 && BlocksFor(size) <= MAX_FILE_BLK_COUNT
      modifies fileImages
      ensures Valid() && dnlist[..] == old(dnlist[..])
      ensures var images, dns := old(fileImages[..]), Nodes(dnlist[..], dncnt);
        var r := Find(images, MAX_FILE_COUNT, name);
        if r == -1 then response == NoResponse && fileImages[..] == images
        else (
          && response == FileResponse(Updated(images[r].value, dns, size))
          && fileImages[..] == images[r := Some(Updated(images[r].value, dns, size))]
          && if size <= images[r].value.size then response.image == images[r].value
             else size <= DFS_BLOCK_SIZE * response.image.blocknum < size + DFS_BLOCK_SIZE
        )
    {
      ghost var images := fileImages[..];
      var k := FindImage(name);
      if k == MAX_FILE_COUNT {
        return NoResponse;
      }
      if size > fileImages[k].value.size {
        var blockCount := BlocksFor(size);
        var first := fileImages[k].value.blocknum;
        fileImages[k] := Some(fileImages[k].value.(blocknum := blockCount, size := size));
        AssignBlocks(k, first, blockCount, first, name);
      }
      assert fileImages[..] == images[k := fileImages[k]];
      response := FileResponse(fileImages[k].value);
    }

    /** The registered datanodes. */
    method GetSystemInformation() returns (response: Response)
      requires Valid()
      ensures response == SystemResponse(Nodes(dnlist[..], dncnt))
    {
      var nodes := [];
      var i := 0;
      while i < dncnt
        invariant i <= dncnt && nodes == Nodes(dnlist[..], dncnt)[..i]
      {
        nodes := nodes + [dnlist[i].value];
        i := i + 1;
      }
      response := SystemResponse(nodes);
    }

    /** Hands a request of a client to its handler. */
    method RequestsDispatcher(request: Request) returns (response: Response)
      requires Valid() && !safeMode
      requires (request.WriteRequest? || request.ModifyRequest?) ==> BlocksFor(request.size) <= MAX_FILE_BLK_COUNT
      modifies fileImages
      ensures Valid() && dnlist[..] == old(dnlist[..])
      ensures response == Answer(old(fileImages[..]), Nodes(dnlist[..], dncnt), request).1
      ensures fileImages[..] == Answer(old(fileImages[..]), Nodes(dnlist[..], dncnt), request).0
    {
      match request {
        case ReadRequest(name) => response := GetFileLocation(name);
        case WriteRequest(name, size) => response := GetFileReceivers(name, size);
        case QueryRequest => response := GetSystemInformation();
        case ModifyRequest(name, size) => response := GetFileUpdatePoint(name, size);
      }
    }
  }

  /** The file table after a request, and the response. */
  function Answer(images: Images, dns: seq<DataNode>, request: Request): (Images, Response)
    requires dns != []
  {
    match request
    case ReadRequest(name) =>
      var r := Find(images, |images|, name);
      (images, if r >= 0 then FileResponse(images[r].value) else NoResponse)
    case WriteRequest(name, size) =>
      var r, free := Find(images, |images|, name), FirstFree(images, |images|);
      if r == -1 && free == -1 then (images, NoResponse)
      else
        var img := Received(if r >= 0 then images[r].value else NewImage(name, size), dns, size);
        (images[(if r >= 0 then r else free) := Some(img)], FileResponse(img))
    case QueryRequest => (images, SystemResponse(dns))
    case ModifyRequest(name, size) =>
      var r := Find(images, |images|, name);
      if r == -1 then (images, NoResponse)
      else
        var img := Updated(images[r].value, dns, size);
        (images[r := Some(img)], FileResponse(img))
  }

  lemma {:induction false} FindFound(images: Images, n: nat, name: string, k: nat)
    requires k < n <= |images| && Find(images, k, name) == -1 && images[k].Some? && images[k].value.name == name
    ensures Find(images, n, name) == k
  {
    if n > k + 1 {
      FindFound(images, n - 1, name, k);
    }
  }

  lemma {:induction false} FreeFound(images: Images, n: nat, k: nat)
    requires k < n <= |images| && FirstFree(images, k) == -1 && images[k].None?
    ensures FirstFree(images, n) == k
  {
    if n > k + 1 {
      FreeFound(images, n - 1, k);
    }
  }

  lemma NoneAssigned(dns: seq<DataNode>, name: string, list: seq<BlockInfo>, from: nat, firstId: nat)
    requires dns != []
    ensures Assigned(dns, name, list, from, from, firstId) == list
  {
  }

  lemma NoneAssignedBelow(dns: seq<DataNode>, name: string, list: seq<BlockInfo>, from: nat, to: nat, firstId: nat)
    requires dns != [] && to <= from
    ensures Assigned(dns, name, list, from, to, firstId) == list
  {
  }

  lemma OneAssigned(dns: seq<DataNode>, name: string, list: seq<BlockInfo>, from: nat, next: nat, firstId: nat)
    requires dns != [] && from <= next < |list|
    ensures Assigned(dns, name, list, from, next + 1, firstId)
         == Assigned(dns, name, list, from, next, firstId)[next := BlockAt(dns, name, next, firstId + (next - from))]
  {
  }
}
