/** The file system as its users see it: a list of directories, a map of files and the
    descriptors, with the number of blocks in use. */
module SfsPlain {
  import opened Options
  import opened DiskBytes
  import opened SfsLayout
  import opened SfsGrow
  import opened SfsTransfer

  /** Directories are numbered in the order in which they are made; a file is named by
      the number of its directory and its name. */
  type Key = (nat, string)

  datatype DirEntry = DirEntry(number: nat, name: string)

  /** The size of a file in frames, and the bytes that were written to it. */
  datatype Content = Content(frames: nat, known: map<nat, Byte>)

  datatype Cursor = Cursor(key: Key, at: nat)

  datatype State = State(
    dirs: seq<DirEntry>, made: nat, files: map<Key, Content>, fds: seq<Option<Cursor>>, used: int)

  datatype Op =
    | MkfsOp
    | RemountOp
    | MkdirOp(name: string)
    | RmdirOp(name: string)
    | LsdirOp
    | OpenOp(dirName: string, name: string)
    | CloseOp(fd: nat)
    | RemoveOp(fd: nat)
    | WriteOp(fd: nat, bytes: seq<Byte>)
    | SeekOp(fd: nat, relative: int, loc: int)
    | ReadOp(fd: nat, length: nat)

  datatype Reply = Done | Number(value: int) | Got(bytes: seq<Byte>)

  function NoFds(n: nat): (r: seq<Option<Cursor>>)
    ensures |r| == n && forall i: nat :: i < n ==> r[i].None?
  {
    if n == 0 then [] else NoFds(n - 1) + [None]
  }

  function EmptyState(): State {
    State([], 0, map[], NoFds(MAX_OPENED_FILES), 2)
  }

  /** The place of a directory in the list; the length of the list if there is none. */
  function IndexOf(dirs: seq<DirEntry>, name: string): (i: nat)
    ensures i <= |dirs| && (i < |dirs| ==> dirs[i].name == name)
    ensures forall k: nat :: k < i ==> dirs[k].name != name
  {
    if dirs == [] || dirs[0].name == name then 0 else 1 + IndexOf(dirs[1..], name)
  }

  /** The lowest free descriptor. */
  function FreeFd(fds: seq<Option<Cursor>>): (i: nat)
    ensures i <= |fds| && (i < |fds| ==> fds[i].None?)
    ensures forall k: nat :: k < i ==> fds[k].Some?
  {
    if fds == [] || fds[0].None? then 0 else 1 + FreeFd(fds[1..])
  }

  predicate Listed(s: State, name: string) {
    IndexOf(s.dirs, name) < |s.dirs|
  }

  ghost function FilesOf(s: State, number: nat): set<Key> {
    set k | k in s.files && k.0 == number
  }

  /** The directory is in the list and holds no file. */
  ghost predicate Removable(s: State, name: string) {
    Listed(s, name) && FilesOf(s, s.dirs[IndexOf(s.dirs, name)].number) == {}
  }

  ghost predicate IsOpened(s: State, fd: nat) {
    fd < |s.fds| && s.fds[fd].Some? && s.fds[fd].value.key in s.files
  }

  function SizeOf(c: Content): nat {
    FRAME_SIZE * c.frames
  }

  /** The bytes known after writing bytes at position from. */
  function WithBytes(known: map<nat, Byte>, from: nat, bytes: seq<Byte>): (r: map<nat, Byte>)
    ensures forall p: nat :: p in r <==> p in known || from <= p < from + |bytes|
    ensures forall p: nat :: p in r ==> r[p] == if from <= p < from + |bytes| then bytes[p - from] else known[p]
  {
    if bytes == [] then known else WithBytes(known, from, bytes[..|bytes| - 1])[from + |bytes| - 1 := bytes[|bytes| - 1]]
  }

  /** What the caller sees to: names fit, there is room, and transfers start in the
      first block and end before the end of the file. */
  ghost predicate Able(s: State, op: Op) {
    match op
    case MkfsOp | RemountOp | LsdirOp | RmdirOp(_) => true
    case MkdirOp(name) => Listed(s, name) || (s.used < MAX_BLOCK_ID && NameFits(name, MAX_DIR_NAME))
    case OpenOp(dirName, name) => Listed(s, dirName) ==> MayOpenKey(s, (s.dirs[IndexOf(s.dirs, dirName)].number, name))
    case CloseOp(fd) => fd < |s.fds|
    case RemoveOp(fd) => IsOpened(s, fd)
    case WriteOp(fd, bytes) => IsOpened(s, fd) && MayWriteTo(s.files[s.fds[fd].value.key], s.fds[fd].value.at + |bytes|, s)
                               && s.fds[fd].value.at < BLOCK_SIZE
    case SeekOp(fd, _, _) => IsOpened(s, fd)
    case ReadOp(fd, length) =>
      && IsOpened(s, fd)
      && var size, at := SizeOf(s.files[s.fds[fd].value.key]), s.fds[fd].value.at;
         at <= size ==> 0 < length && at < BLOCK_SIZE && at + length < size
  }

  /** The file is there and not open, or it can be made. */
  ghost predicate MayOpenKey(s: State, k: Key) {
    if k in s.files then forall i: nat :: i < |s.fds| && s.fds[i].Some? ==> s.fds[i].value.key != k
    else s.used < MAX_BLOCK_ID && NameFits(k.1, MAX_FILE_NAME) && |FilesOf(s, k.0)| < DIR_SLOTS
  }

  ghost predicate MayWriteTo(c: Content, end: nat, s: State) {
    && end < FRAME_SIZE * (c.frames + Missing(c.frames, end))
    && s.used + (FRAME_COUNT + 1) * Missing(c.frames, end) <= MAX_BLOCK_ID
  }

  /** The state after an operation. */
  ghost function After(s: State, op: Op): State
    requires Able(s, op)
  {
    match op
    case MkfsOp => EmptyState()
    case RemountOp => s.(fds := NoFds(MAX_OPENED_FILES))
    case LsdirOp => s
    case MkdirOp(name) =>
      if Listed(s, name) then s
      else s.(dirs := s.dirs + [DirEntry(s.made, name)], made := s.made + 1, used := s.used + 1)
    case RmdirOp(name) =>
      if Removable(s, name) then s.(dirs := Without(s.dirs, IndexOf(s.dirs, name)), used := s.used - 1) else s
    case OpenOp(dirName, name) =>
      if FreeFd(s.fds) < |s.fds| && Listed(s, dirName) then
        Opening(s, (s.dirs[IndexOf(s.dirs, dirName)].number, name))
      else s
    case CloseOp(fd) => s.(fds := s.fds[fd := None])
    case RemoveOp(fd) => Removing(s, fd)
    case WriteOp(fd, bytes) => Writing(s, fd, bytes)
    case SeekOp(fd, relative, loc) =>
      if 0 <= loc <= 2 then Moved(s, fd, Sought(if loc == 0 then 0 else s.fds[fd].value.at, relative)) else s
    case ReadOp(fd, length) =>
      if s.fds[fd].value.at > SizeOf(s.files[s.fds[fd].value.key]) then s
      else Moved(s, fd, s.fds[fd].value.at + length)
  }

  /** Removing the first directory takes all of them off the list; their files stay,
      but only open descriptors still lead to them. */
  function Without(dirs: seq<DirEntry>, i: nat): seq<DirEntry>
    requires i < |dirs|
  {
    if i == 0 then [] else dirs[..i] + dirs[i + 1..]
  }

  function WithFile(s: State, k: Key): State {
    if k in s.files then s else s.(files := s.files[k := Content(0, map[])], used := s.used + 1)
  }

  function Opening(s: State, k: Key): State
    requires FreeFd(s.fds) < |s.fds|
  {
    WithFile(s, k).(fds := s.fds[FreeFd(s.fds) := Some(Cursor(k, 0))])
  }

  function Moved(s: State, fd: nat, at: nat): State
    requires fd < |s.fds| && s.fds[fd].Some?
  {
    s.(fds := s.fds[fd := Some(Cursor(s.fds[fd].value.key, at))])
  }

  /** remove gives back the inode and the frames, but no content block. */
  ghost function Removing(s: State, fd: nat): State
    requires IsOpened(s, fd)
  {
    var k := s.fds[fd].value.key;
    s.(files := s.files - {k}, fds := s.fds[fd := None], used := s.used - 1 - s.files[k].frames)
  }

  /** The file gets as many frames as the end of the write needs, and no more. */
  ghost function Writing(s: State, fd: nat, bytes: seq<Byte>): (s': State)
    requires IsOpened(s, fd)
    ensures var k, end := s.fds[fd].value.key, s.fds[fd].value.at + |bytes|;
      && k in s'.files && s'.used - s.used == (FRAME_COUNT + 1) * (s'.files[k].frames - s.files[k].frames)
      && if end <= SizeOf(s.files[k]) then s'.files[k].frames == s.files[k].frames
         else SizeOf(s'.files[k]) - FRAME_SIZE < end <= SizeOf(s'.files[k])
  {
    var k, from := s.fds[fd].value.key, s.fds[fd].value.at;
    var n := Missing(s.files[k].frames, from + |bytes|);
    var c := Content(s.files[k].frames + n, WithBytes(s.files[k].known, from, bytes));
    Moved(s.(files := s.files[k := c], used := s.used + (FRAME_COUNT + 1) * n), fd, from + |bytes|)
  }

  /** The answer to an operation.  Of the bytes that a read delivers, those that were
      written before are settled. */
  ghost predicate Answers(s: State, op: Op, reply: Reply)
    requires Able(s, op)
  {
    match op
    case MkfsOp | RemountOp | CloseOp(_) | RemoveOp(_) => reply == Done
    case LsdirOp => reply == Number(|s.dirs|)
    case MkdirOp(name) => reply == Number(if Listed(s, name) then -1 else 0)
    case RmdirOp(name) => reply == Number(if Removable(s, name) then 0 else -1)
    case OpenOp(dirName, _) =>
      reply == Number(if FreeFd(s.fds) < |s.fds| && Listed(s, dirName) then FreeFd(s.fds) else -1)
    case WriteOp(_, bytes) => reply == Number(|bytes|)
    case SeekOp(_, _, loc) => reply == Number(if 0 <= loc <= 2 then 0 else 1)
    case ReadOp(fd, length) =>
      reply.Got? && Knows(s.files[s.fds[fd].value.key], s.fds[fd].value.at, length, reply.bytes)
  }

  ghost predicate Knows(c: Content, at: nat, length: nat, bytes: seq<Byte>) {
    if at > SizeOf(c) then bytes == []
    else |bytes| == length && forall i: nat {:trigger bytes[i]} :: i < length && at + i in c.known ==> bytes[i] == c.known[at + i]
  }

  /** Each operation of the run finds what its caller has to see to. */
  ghost predicate AllAble(s: State, ops: seq<Op>)
    decreases |ops|
  {
    ops != [] ==> Able(s, ops[0]) && AllAble(After(s, ops[0]), ops[1..])
  }

  ghost function Final(s: State, ops: seq<Op>): State
    requires AllAble(s, ops)
    decreases |ops|
  {
    if ops == [] then s else Final(After(s, ops[0]), ops[1..])
  }

  ghost predicate AllAnswer(s: State, ops: seq<Op>, replies: seq<Reply>)
    requires AllAble(s, ops)
    decreases |ops|
  {
    && |replies| == |ops|
    && (ops != [] ==> Answers(s, ops[0], replies[0]) && AllAnswer(After(s, ops[0]), ops[1..], replies[1..]))
  }
  // ----- what the plain model promises

  /** The operation neither writes to file k, nor removes it, nor makes a new file system. */
  ghost predicate Spares(s: State, op: Op, k: Key)
    requires Able(s, op)
  {
    match op
    case MkfsOp => false
    case RemoveOp(fd) => s.fds[fd].value.key != k
    case WriteOp(fd, _) => s.fds[fd].value.key != k
    case _ => true
  }

  ghost predicate AllSpare(s: State, ops: seq<Op>, k: Key)
    requires AllAble(s, ops)
    decreases |ops|
  {
    ops != [] ==> Spares(s, ops[0], k) && AllSpare(After(s, ops[0]), ops[1..], k)
  }

  /** What was written to a file stays there, whatever happens to other files, to the
      directories and to descriptors, and across processes. */
  lemma {:induction false} WrittenStays(s: State, ops: seq<Op>, k: Key)
    requires AllAble(s, ops) && k in s.files && AllSpare(s, ops, k)
    ensures k in Final(s, ops).files && Final(s, ops).files[k] == s.files[k]
    decreases |ops|
  {
    if ops != [] {
      StepSpares(s, ops[0], k);
      WrittenStays(After(s, ops[0]), ops[1..], k);
    }
  }

  lemma StepSpares(s: State, op: Op, k: Key)
    requires Able(s, op) && k in s.files && Spares(s, op, k)
    ensures k in After(s, op).files && After(s, op).files[k] == s.files[k]
  {
  }
}
