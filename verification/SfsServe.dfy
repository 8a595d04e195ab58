/** Whole runs of the file system: any sequence of operations answers, and ends, as the
    plain model does. */
module SfsServe {
  import opened Options
  import opened DiskBytes
  import opened SfsLayout
  import opened SfsBitmap
  import opened SfsVolume
  import opened SfsVolumeLemmas
  import opened SfsFileLemmas
  import opened SfsSteps
  import opened SfsGrow
  import opened SfsTransfer
  import opened SfsStored
  import opened SfsPlain
  import opened SfsFileSystem

  // ----- what a volume has to do with a state

  /** The block of each directory, and the inode of each file. */
  datatype Places = Places(dirAt: map<nat, nat>, fileAt: map<Key, nat>)

  /** The numbers of the directories that are listed or hold a file. */
  ghost function Numbers(s: State): set<nat> {
    (set d | d in s.dirs :: d.number) + (set k | k in s.files :: k.0)
  }

  ghost predicate NumbersOk(s: State, at: Places) {
    && (forall n :: n in Numbers(s) ==> n < s.made && n in at.dirAt)
    && (forall n, m :: n in Numbers(s) && m in Numbers(s) && n != m ==> at.dirAt[n] != at.dirAt[m])
  }

  ghost predicate DirsRep(v: Vol, s: State, at: Places) {
    && |s.dirs| == |v.dirs|
    && forall i: nat :: i < |s.dirs| ==>
         s.dirs[i].number in at.dirAt && Dirs(v)[i] == DirView(at.dirAt[s.dirs[i].number], s.dirs[i].name)
  }

  ghost predicate FileIs(v: Vol, x: nat, d: nat, name: string, c: Content) {
    && FileAt(v, d, name, x) && |v.chain[x]| == c.frames
    && forall p :: p in c.known ==> p in StoredBytes(v, x) && DataOf(v, x)[p] == c.known[p]
  }

  ghost predicate FileRep(v: Vol, at: Places, k: Key, c: Content) {
    k in at.fileAt && k.0 in at.dirAt && FileIs(v, at.fileAt[k], at.dirAt[k.0], k.1, c)
  }

  ghost predicate HasKey(s: State, at: Places, x: nat) {
    exists k :: k in s.files && k in at.fileAt && at.fileAt[k] == x
  }

  ghost predicate FilesRep(v: Vol, s: State, at: Places) {
    && (forall k :: k in s.files ==> FileRep(v, at, k, s.files[k]))
    && (forall x :: x in v.chain ==> HasKey(s, at, x))
  }

  ghost predicate FdRep(fd: Fd, c: Option<Cursor>, s: State, at: Places) {
    && (fd.valid <==> c.Some?)
    && (c.Some? ==> c.value.key in s.files && c.value.key in at.fileAt
                    && at.fileAt[c.value.key] == fd.inodeBid && fd.cur == c.value.at)
  }

  ghost predicate FdsRep(fds: seq<Fd>, s: State, at: Places) {
    |fds| == |s.fds| && forall i: nat :: i < |fds| ==> FdRep(fds[i], s.fds[i], s, at)
  }

  ghost predicate Rep(v: Vol, fds: seq<Fd>, s: State, at: Places) {
    DirsRep(v, s, at) && NumbersOk(s, at) && FilesRep(v, s, at) && FdsRep(fds, s, at) && |v.used| == s.used
  }
  // ----- what the representation says

  lemma ListedNumber(s: State, i: nat)
    requires i < |s.dirs|
    ensures s.dirs[i].number in Numbers(s)
  {
    assert s.dirs[i] in s.dirs;
  }

  lemma FileNumber(s: State, k: Key)
    requires k in s.files
    ensures k.0 in Numbers(s)
  {
  }

  /** The names of the listed directories are the same on both sides. */
  lemma DirListed(v: Vol, s: State, at: Places, name: string)
    requires Inv(v) && DirsRep(v, s, at)
    ensures HasDir(v, name) <==> Listed(s, name)
    ensures forall i: nat :: DirNamed(v, i, name) <==> i == IndexOf(s.dirs, name) && i < |s.dirs|
  {
    var i := IndexOf(s.dirs, name);
    if i < |s.dirs| {
      assert DirNamed(v, i, name);
      NameIsUnique(v, i, name);
    }
    forall k: nat | DirNamed(v, k, name) ensures k == i {
      assert s.dirs[k].name == name;
    }
  }

  /** A directory that is listed or holds a file is one of the blocks in use. */
  lemma NumberUsed(v: Vol, s: State, at: Places, n: nat)
    requires Inv(v) && DirsRep(v, s, at) && FilesRep(v, s, at) && n in Numbers(s)
    ensures n in at.dirAt && at.dirAt[n] in v.used && IsDir(v, at.dirAt[n])
  {
    if k :| k in s.files && k.0 == n {
      assert FileRep(v, at, k, s.files[k]);
      FileHasSlot(v, at.fileAt[k]);
      assert NodeOk(v, at.dirAt[n]);
    } else {
      var d :| d in s.dirs && d.number == n;
      var i: nat :| i < |s.dirs| && s.dirs[i] == d;
      assert DirLinkOk(v, i) && Dirs(v)[i].id == at.dirAt[n];
      assert NodeOk(v, at.dirAt[n]);
    }
  }

  /** A file is found under its key and under no other. */
  lemma KeyOfFile(v: Vol, s: State, at: Places, n: nat, name: string, x: nat)
    requires NumbersOk(s, at) && FilesRep(v, s, at) && n in Numbers(s)
    requires FileAt(v, at.dirAt[n], name, x)
    ensures (n, name) in s.files && at.fileAt[(n, name)] == x
  {
    assert HasKey(s, at, x);
    var k :| k in s.files && k in at.fileAt && at.fileAt[k] == x;
    assert FileRep(v, at, k, s.files[k]);
    FileNumber(s, k);
  }

  lemma FileFound(v: Vol, s: State, at: Places, n: nat, name: string)
    requires NumbersOk(s, at) && FilesRep(v, s, at) && n in Numbers(s)
    ensures HasFile(v, at.dirAt[n], name) <==> (n, name) in s.files
    ensures (n, name) in s.files ==> (n, name) in at.fileAt && FileAt(v, at.dirAt[n], name, at.fileAt[(n, name)])
  {
    if (n, name) in s.files {
      assert FileRep(v, at, (n, name), s.files[(n, name)]);
    }
    if x :| FileAt(v, at.dirAt[n], name, x) {
      KeyOfFile(v, s, at, n, name, x);
    }
  }

  lemma FilesDiffer(v: Vol, s: State, at: Places, k: Key, l: Key)
    requires NumbersOk(s, at) && FilesRep(v, s, at) && k in s.files && l in s.files && k != l
    ensures k in at.fileAt && l in at.fileAt && at.fileAt[k] != at.fileAt[l]
  {
    assert FileRep(v, at, k, s.files[k]) && FileRep(v, at, l, s.files[l]);
    FileNumber(s, k);
    FileNumber(s, l);
  }

  lemma HoldsFile(v: Vol, s: State, at: Places, k: Key)
    requires Inv(v) && FilesRep(v, s, at) && k in s.files
    ensures k.0 in at.dirAt && !EmptyDir(v, at.dirAt[k.0])
  {
    hide Inv;
    assert FileRep(v, at, k, s.files[k]);
    FileHasSlot(v, at.fileAt[k]);
  }

  lemma FileInSlot(v: Vol, s: State, at: Places, n: nat, i: nat)
    requires Inv(v) && NumbersOk(s, at) && FilesRep(v, s, at) && n in Numbers(s)
    requires IsDir(v, at.dirAt[n]) && i < DIR_SLOTS && At(v.disk, at.dirAt[n]).dir.inodes[i] != 0
    ensures FilesOf(s, n) != {}
  {
    hide Inv, FilesRep;
    SlotIsFile(v, at.dirAt[n], i);
    var x := At(v.disk, at.dirAt[n]).dir.inodes[i];
    KeyOfFile(v, s, at, n, FileName(v, x), x);
    assert (n, FileName(v, x)) in FilesOf(s, n);
  }

  /** A directory is empty on both sides or on neither. */
  lemma EmptyOnBoth(v: Vol, s: State, at: Places, n: nat)
    requires Inv(v) && NumbersOk(s, at) && DirsRep(v, s, at) && FilesRep(v, s, at) && n in Numbers(s)
    ensures n in at.dirAt && (EmptyDir(v, at.dirAt[n]) <==> FilesOf(s, n) == {})
  {
    hide Inv, FilesRep, DirsRep, NumbersOk;
    NumberUsed(v, s, at, n);
    if FilesOf(s, n) != {} {
      var k :| k in FilesOf(s, n);
      HoldsFile(v, s, at, k);
    } else if !EmptyDir(v, at.dirAt[n]) {
      var i: nat :| i < DIR_SLOTS && At(v.disk, at.dirAt[n]).dir.inodes[i] != 0;
      FileInSlot(v, s, at, n, i);
    }
  }

  // ----- what every operation leaves alone

  /** The file looks as before, and what was stored of it still is. */
  ghost predicate SameFile(v: Vol, v': Vol, x: nat) {
    x in v.chain && x in v'.chain && Files(v')[x] == Files(v)[x] && StoredBytes(v, x) <= StoredBytes(v', x)
  }

  lemma FileStays(v: Vol, v': Vol, x: nat, d: nat, name: string, c: Content)
    requires FileIs(v, x, d, name, c) && SameFile(v, v', x)
    ensures FileIs(v', x, d, name, c)
  {
    assert Files(v)[x] == ViewOf(v, x) && Files(v')[x] == ViewOf(v', x);
    assert |DataOf(v', x)| == FRAME_SIZE * |v'.chain[x]| && |DataOf(v, x)| == FRAME_SIZE * |v.chain[x]|;
  }

  /** No file changed. */
  lemma FilesStay(v: Vol, v': Vol, s: State, at: Places)
    requires FilesRep(v, s, at) && Files(v') == Files(v) && AllStoredKept(v, v')
    ensures FilesRep(v', s, at)
  {
    forall k | k in s.files ensures FileRep(v', at, k, s.files[k]) {
      assert FileRep(v, at, k, s.files[k]);
      assert at.fileAt[k] in Files(v);
      FileStays(v, v', at.fileAt[k], at.dirAt[k.0], k.1, s.files[k]);
    }
    forall x | x in v'.chain ensures HasKey(s, at, x) {
      assert x in Files(v);
    }
  }

  // ----- directories

  lemma DirMade(v: Vol, v': Vol, fds: seq<Fd>, s: State, at: Places, name: string) returns (at': Places)
    requires Inv(v) && Rep(v, fds, s, at) && DirCreated(v, v', name) && Able(s, MkdirOp(name)) && !Listed(s, name)
    ensures Rep(v', fds, After(s, MkdirOp(name)), at')
  {
    var n := v'.dirs[|v'.dirs| - 1];
    var s' := After(s, MkdirOp(name));
    at' := at.(dirAt := at.dirAt[s.made := n]);
    NumbersMade(v, s, at, name, n);
    ListMade(v, v', s, at, name);
    FilesStay(v, v', s, at);
    FilesRenumbered(v', s, s', at, at');
  }

  lemma NumbersMade(v: Vol, s: State, at: Places, name: string, n: nat)
    requires Inv(v) && NumbersOk(s, at) && DirsRep(v, s, at) && FilesRep(v, s, at) && n !in v.used
    ensures var s' := s.(dirs := s.dirs + [DirEntry(s.made, name)], made := s.made + 1, used := s.used + 1);
      Numbers(s') == Numbers(s) + {s.made} && NumbersOk(s', at.(dirAt := at.dirAt[s.made := n]))
  {
    hide Inv, DirsRep, FilesRep;
    var s' := s.(dirs := s.dirs + [DirEntry(s.made, name)], made := s.made + 1, used := s.used + 1);
    forall d ensures d in s'.dirs <==> d in s.dirs || d == DirEntry(s.made, name) {
    }
    assert Numbers(s') == Numbers(s) + {s.made} by {
      assert DirEntry(s.made, name) in s'.dirs;
    }
    forall m | m in Numbers(s) ensures at.dirAt[m] != n {
      NumberUsed(v, s, at, m);
    }
  }

  lemma ListMade(v: Vol, v': Vol, s: State, at: Places, name: string)
    requires NumbersOk(s, at) && DirsRep(v, s, at) && DirCreated(v, v', name)
    ensures var s' := s.(dirs := s.dirs + [DirEntry(s.made, name)], made := s.made + 1, used := s.used + 1);
      DirsRep(v', s', at.(dirAt := at.dirAt[s.made := v'.dirs[|v'.dirs| - 1]]))
  {
    assert |Dirs(v')| == |Dirs(v)| + 1;
    forall i: nat | i < |s.dirs| ensures s.dirs[i].number < s.made && Dirs(v')[i] == Dirs(v)[i] {
      ListedNumber(s, i);
    }
  }

  /** Directories that are not among the old ones do not matter to the files. */
  lemma FilesRenumbered(v: Vol, s: State, s': State, at: Places, at': Places)
    requires FilesRep(v, s, at) && s'.files == s.files && at'.fileAt == at.fileAt
    requires forall n :: n in Numbers(s) && n in at.dirAt ==> n in at'.dirAt && at'.dirAt[n] == at.dirAt[n]
    ensures FilesRep(v, s', at')
  {
    forall k | k in s'.files ensures FileRep(v, at', k, s'.files[k]) {
      assert FileRep(v, at, k, s.files[k]);
      FileNumber(s, k);
    }
    forall x | x in v.chain ensures HasKey(s', at', x) {
      assert HasKey(s, at, x);
    }
  }
  lemma NumbersLeft(s: State, at: Places, i: nat)
    requires NumbersOk(s, at) && i < |s.dirs|
    ensures NumbersOk(s.(dirs := Without(s.dirs, i), used := s.used - 1), at)
  {
    var s' := s.(dirs := Without(s.dirs, i), used := s.used - 1);
    assert Numbers(s') <= Numbers(s);
  }

  lemma ListLeft(v: Vol, v': Vol, s: State, at: Places, i: nat)
    requires DirsRep(v, s, at) && i < |s.dirs| && DirRemoved(v, v', i)
    ensures DirsRep(v', s.(dirs := Without(s.dirs, i), used := s.used - 1), at)
  {
    hide Files, AllStoredKept, DirName;
    assert |Dirs(v')| == |Without(s.dirs, i)|;
    forall j: nat | j < |Without(s.dirs, i)|
      ensures var k := if j < i then j else j + 1;
        i > 0 && k < |s.dirs| && Without(s.dirs, i)[j] == s.dirs[k] && Dirs(v')[j] == Dirs(v)[k]
    {
    }
  }

  lemma DirGone(v: Vol, v': Vol, fds: seq<Fd>, s: State, at: Places, name: string)
    requires Inv(v) && Rep(v, fds, s, at) && Removable(s, name)
    requires DirRemoved(v, v', IndexOf(s.dirs, name))
    ensures Rep(v', fds, After(s, RmdirOp(name)), at)
  {
    hide Inv, NumbersOk, DirsRep, FilesRep;
    var i := IndexOf(s.dirs, name);
    ListedNumber(s, i);
    ListedUsed(v, s, at, i);
    NumbersLeft(s, at, i);
    ListLeft(v, v', s, at, i);
    FilesStay(v, v', s, at);
    FilesRelisted(v', s, After(s, RmdirOp(name)), at);
  }

  lemma ListedUsed(v: Vol, s: State, at: Places, i: nat)
    requires Inv(v) && DirsRep(v, s, at) && i < |s.dirs|
    ensures |s.dirs| == |v.dirs| && s.dirs[i].number in at.dirAt && at.dirAt[s.dirs[i].number] == v.dirs[i] && v.dirs[i] in v.used
  {
    assert DirLinkOk(v, i) && Dirs(v)[i].id == v.dirs[i];
    assert NodeOk(v, v.dirs[i]);
  }

  lemma FilesRelisted(v: Vol, s: State, s': State, at: Places)
    requires FilesRep(v, s, at) && s'.files == s.files
    ensures FilesRep(v, s', at)
  {
    FilesRenumbered(v, s, s', at, at);
  }

  // ----- files and descriptors

  /** A file that did not change still represents its key. */
  lemma FileRepStays(v: Vol, v': Vol, s: State, at: Places, at': Places, k: Key)
    requires FilesRep(v, s, at) && k in s.files && k in at.fileAt && SameFile(v, v', at.fileAt[k])
    requires at'.dirAt == at.dirAt && k in at'.fileAt && at'.fileAt[k] == at.fileAt[k]
    ensures FileRep(v', at', k, s.files[k])
  {
    hide SameFile, FileIs;
    assert FileRep(v, at, k, s.files[k]);
    FileStays(v, v', at.fileAt[k], at.dirAt[k.0], k.1, s.files[k]);
  }

  lemma FileIsThere(v: Vol, s: State, at: Places, k: Key)
    requires FilesRep(v, s, at) && k in s.files
    ensures k in at.fileAt && at.fileAt[k] in v.chain
  {
    assert FileRep(v, at, k, s.files[k]);
  }

  lemma CreatedAside(v: Vol, v': Vol, d: nat, name: string, x: nat, y: nat)
    requires Inv(v) && FileCreated(v, v', d, name, x) && y in v.chain
    ensures y != x && SameFile(v, v', y)
  {
    assert NodeOk(v, y);
    assert Files(v')[y] == Files(v)[y];
  }

  lemma NewFileRep(v: Vol, v': Vol, at: Places, k: Key, x: nat)
    requires k.0 in at.dirAt && FileCreated(v, v', at.dirAt[k.0], k.1, x)
    ensures FileRep(v', at.(fileAt := at.fileAt[k := x]), k, Content(0, map[]))
  {
    assert ViewOf(v', x) == Files(v')[x];
  }

  /** A file under a new key; the others are as they were. */
  lemma FileMade(v: Vol, v': Vol, s: State, at: Places, k: Key, x: nat)
    requires Inv(v) && NumbersOk(s, at) && FilesRep(v, s, at) && k.0 in Numbers(s) && k !in s.files
    requires FileCreated(v, v', at.dirAt[k.0], k.1, x)
    ensures FilesRep(v', WithFile(s, k), at.(fileAt := at.fileAt[k := x]))
  {
    hide Inv, SameFile, FileIs, FileRep, HasKey, StoredKept;
    var s', at' := WithFile(s, k), at.(fileAt := at.fileAt[k := x]);
    forall l | l in s'.files ensures FileRep(v', at', l, s'.files[l]) {
      if l == k {
        NewFileRep(v, v', at, k, x);
      } else {
        FileIsThere(v, s, at, l);
        CreatedAside(v, v', at.dirAt[k.0], k.1, x, at.fileAt[l]);
        FileRepStays(v, v', s, at, at', l);
      }
    }
    forall y | y in v'.chain ensures HasKey(s', at', y) {
      CreatedKey(v, v', s, at, k, x, y);
    }
  }

  lemma CreatedKey(v: Vol, v': Vol, s: State, at: Places, k: Key, x: nat, y: nat)
    requires FilesRep(v, s, at) && k !in s.files && v'.chain == v.chain[x := []] && y in v'.chain
    ensures HasKey(WithFile(s, k), at.(fileAt := at.fileAt[k := x]), y)
  {
    var s', at' := WithFile(s, k), at.(fileAt := at.fileAt[k := x]);
    if y == x {
      assert k in s'.files && at'.fileAt[k] == y;
    } else {
      KeyStays(s, s', at, at', k, y);
    }
  }

  lemma KeyStays(s: State, s': State, at: Places, at': Places, k: Key, y: nat)
    requires HasKey(s, at, y) && k !in s.files && forall l :: l in s.files ==> l in s'.files
    requires forall l :: l in at.fileAt && l != k ==> l in at'.fileAt && at'.fileAt[l] == at.fileAt[l]
    ensures HasKey(s', at', y)
  {
    var l :| l in s.files && l in at.fileAt && at.fileAt[l] == y;
    assert l in s'.files && at'.fileAt[l] == y;
  }

  /** What follows for the directories, the numbers and the descriptors when a file is made. */
  lemma OthersAside(v: Vol, v': Vol, fds: seq<Fd>, s: State, at: Places, k: Key, x: nat)
    requires NumbersOk(s, at) && DirsRep(v, s, at) && FdsRep(fds, s, at) && k.0 in Numbers(s) && k !in s.files
    requires Dirs(v') == Dirs(v) && v'.dirs == v.dirs
    ensures var s', at' := WithFile(s, k), at.(fileAt := at.fileAt[k := x]);
      NumbersOk(s', at') && DirsRep(v', s', at') && FdsRep(fds, s', at')
  {
    assert Numbers(WithFile(s, k)) == Numbers(s);
    forall i: nat | i < |fds| ensures FdRep(fds[i], s.fds[i], WithFile(s, k), at.(fileAt := at.fileAt[k := x])) {
      assert FdRep(fds[i], s.fds[i], s, at);
    }
  }

  /** Whether the file was there or was made: the state has it. */
  lemma FileOpened(v: Vol, v': Vol, fds: seq<Fd>, s: State, at: Places, k: Key, x: nat) returns (at': Places)
    requires Inv(v) && Rep(v, fds, s, at) && k.0 in Numbers(s) && k.0 in at.dirAt
    requires Opened(v, v', at.dirAt[k.0], k.1, x)
    ensures Rep(v', fds, WithFile(s, k), at') && k in at'.fileAt && at'.fileAt[k] == x
  {
    hide Inv, NumbersOk, DirsRep, FilesRep, FdsRep, FileCreated;
    FileFound(v, s, at, k.0, k.1);
    if k in s.files {
      KeyOfFile(v, s, at, k.0, k.1, x);
      at' := at;
    } else {
      at' := at.(fileAt := at.fileAt[k := x]);
      FileMade(v, v', s, at, k, x);
      CreatedUsed(v, v', at.dirAt[k.0], k.1, x);
      OthersAside(v, v', fds, s, at, k, x);
    }
  }

  lemma CreatedUsed(v: Vol, v': Vol, d: nat, name: string, x: nat)
    requires FileCreated(v, v', d, name, x)
    ensures |v'.used| == |v.used| + 1 && Dirs(v') == Dirs(v) && v'.dirs == v.dirs
  {
    hide StoredKept;
  }

  /** One descriptor changes. */
  lemma FdSet(v: Vol, fds: seq<Fd>, s: State, at: Places, i: nat, fd: Fd, c: Option<Cursor>)
    requires Rep(v, fds, s, at) && i < |fds| && FdRep(fd, c, s, at)
    ensures i < |s.fds| && Rep(v, fds[i := fd], s.(fds := s.fds[i := c]), at)
  {
    hide FileRep, HasKey, FdRep, NumbersOk;
    var fds', s' := fds[i := fd], s.(fds := s.fds[i := c]);
    FilesRelisted(v, s, s', at);
    NumbersSame(s, s', at);
    FdRepSame(fd, c, s, s', at);
    forall j: nat | j < |fds'| ensures FdRep(fds'[j], s'.fds[j], s', at) {
      FdRepSame(fds[j], s.fds[j], s, s', at);
    }
  }

  lemma NumbersSame(s: State, s': State, at: Places)
    requires NumbersOk(s, at) && s'.dirs == s.dirs && s'.files == s.files && s'.made == s.made
    ensures NumbersOk(s', at)
  {
    assert Numbers(s') == Numbers(s);
  }

  lemma FdRepSame(fd: Fd, c: Option<Cursor>, s: State, s': State, at: Places)
    requires s'.files.Keys == s.files.Keys
    ensures FdRep(fd, c, s', at) == FdRep(fd, c, s, at)
  {
  }
  /** The file that a descriptor is open on. */
  lemma OpenFile(v: Vol, fds: seq<Fd>, s: State, at: Places, fd: nat)
    requires Rep(v, fds, s, at) && IsOpened(s, fd)
    ensures fd < |fds| && fds[fd].valid && fds[fd].cur == s.fds[fd].value.at
    ensures var k := s.fds[fd].value.key;
      && k in at.fileAt && at.fileAt[k] == fds[fd].inodeBid && FileRep(v, at, k, s.files[k])
      && fds[fd].inodeBid in v.chain && |v.chain[fds[fd].inodeBid]| == s.files[k].frames
  {
    assert FdRep(fds[fd], s.fds[fd], s, at);
  }

  // ----- writing and reading

  /** The bytes that were known and the new ones are what the file holds. */
  lemma WrittenKnown(d: seq<Byte>, d': seq<Byte>, kept: set<nat>, known: map<nat, Byte>, buf: seq<Byte>, from: nat, p: nat)
    requires Rewritten(d, d', kept, buf, from) && p in WithBytes(known, from, buf)
    requires p in known ==> p < |d| && p in kept && d[p] == known[p]
    ensures p < |d'| && d'[p] == WithBytes(known, from, buf)[p]
  {
  }

  lemma WrittenIs(v: Vol, v': Vol, x: nat, n: nat, buf: seq<Byte>, from: nat, d: nat, name: string, c: Content)
    requires FileWritten(v, v', x, n, buf, from) && FileIs(v, x, d, name, c)
    ensures FileIs(v', x, d, name, Content(c.frames + n, WithBytes(c.known, from, buf)))
  {
    hide Rewritten, StoredBytes, StoredKept, NewBlocksInOrder, WrittenEnd, DataOf;
    WrittenName(v, v', x, n, buf, from);
    var c' := Content(c.frames + n, WithBytes(c.known, from, buf));
    forall p | p in c'.known ensures p in StoredBytes(v', x) && p < |DataOf(v', x)| && DataOf(v', x)[p] == c'.known[p] {
      if p in c.known {
        InData(v, x, p);
      }
      WrittenKnown(DataOf(v, x), DataOf(v', x), StoredBytes(v, x), c.known, buf, from, p);
    }
  }

  lemma InData(v: Vol, x: nat, p: nat)
    requires x in v.chain && p in StoredBytes(v, x)
    ensures p < |DataOf(v, x)|
  {
  }

  lemma WrittenName(v: Vol, v': Vol, x: nat, n: nat, buf: seq<Byte>, from: nat)
    requires FileWritten(v, v', x, n, buf, from)
    ensures DirOf(v', x) == DirOf(v, x) && FileName(v', x) == FileName(v, x)
  {
    hide Rewritten, StoredBytes, StoredKept, NewBlocksInOrder, WrittenEnd;
    assert ViewOf(v, x) == Files(v)[x] && ViewOf(v', x) == Files(v')[x];
  }

  lemma WrittenAside(v: Vol, v': Vol, x: nat, n: nat, buf: seq<Byte>, from: nat, y: nat)
    requires FileWritten(v, v', x, n, buf, from) && y in v.chain && y != x
    ensures SameFile(v, v', y)
  {
    assert Files(v')[y] == Files(v)[y];
  }

  lemma FilesWritten(v: Vol, v': Vol, s: State, at: Places, k: Key, n: nat, buf: seq<Byte>, from: nat)
    requires NumbersOk(s, at) && FilesRep(v, s, at) && k in s.files && k in at.fileAt
    requires FileWritten(v, v', at.fileAt[k], n, buf, from)
    ensures FilesRep(v', s.(files := s.files[k := Content(s.files[k].frames + n, WithBytes(s.files[k].known, from, buf))]), at)
  {
    hide SameFile, FileIs, HasKey, FileWritten, NumbersOk;
    var c := Content(s.files[k].frames + n, WithBytes(s.files[k].known, from, buf));
    var s' := s.(files := s.files[k := c]);
    forall l | l in s'.files ensures FileRep(v', at, l, s'.files[l]) {
      assert FileRep(v, at, l, s.files[l]);
      FileIsThere(v, s, at, l);
      if l == k {
        WrittenIs(v, v', at.fileAt[k], n, buf, from, at.dirAt[k.0], k.1, s.files[k]);
      } else {
        FilesDiffer(v, s, at, k, l);
        WrittenAside(v, v', at.fileAt[k], n, buf, from, at.fileAt[l]);
        FileRepStays(v, v', s, at, at, l);
      }
    }
    WrittenChain(v, v', at.fileAt[k], n, buf, from);
    forall x | x in v'.chain ensures HasKey(s', at, x) {
      KeyStaysHere(s, s', at, x);
    }
  }

  lemma WrittenChain(v: Vol, v': Vol, x: nat, n: nat, buf: seq<Byte>, from: nat)
    requires FileWritten(v, v', x, n, buf, from)
    ensures v'.chain.Keys == v.chain.Keys && Dirs(v') == Dirs(v) && v'.dirs == v.dirs
  {
  }

  lemma KeyStaysHere(s: State, s': State, at: Places, x: nat)
    requires HasKey(s, at, x) && s.files.Keys <= s'.files.Keys
    ensures HasKey(s', at, x)
  {
    var l :| l in s.files && l in at.fileAt && at.fileAt[l] == x;
    assert l in s'.files;
  }

  /** Writing changes one file of the state. */
  lemma FileChanged(v: Vol, v': Vol, fds: seq<Fd>, s: State, at: Places, k: Key, n: nat, buf: seq<Byte>, from: nat)
    requires Rep(v, fds, s, at) && k in s.files && k in at.fileAt && FileWritten(v, v', at.fileAt[k], n, buf, from)
    requires |v'.used| == |v.used| + (FRAME_COUNT + 1) * n
    ensures var c := Content(s.files[k].frames + n, WithBytes(s.files[k].known, from, buf));
      Rep(v', fds, s.(files := s.files[k := c], used := s.used + (FRAME_COUNT + 1) * n), at)
  {
    hide FileRep, HasKey, FdRep, FileWritten, FilesRep, DirsRep, NumbersOk;
    var c := Content(s.files[k].frames + n, WithBytes(s.files[k].known, from, buf));
    var s1, s' := s.(files := s.files[k := c]), s.(files := s.files[k := c], used := s.used + (FRAME_COUNT + 1) * n);
    FilesWritten(v, v', s, at, k, n, buf, from);
    FilesRelisted(v', s1, s', at);
    WrittenChain(v, v', at.fileAt[k], n, buf, from);
    DirsSame(v, v', s, s', at);
    forall j: nat | j < |fds| ensures FdRep(fds[j], s'.fds[j], s', at) {
      FdRepSame(fds[j], s.fds[j], s, s', at);
    }
  }

  lemma DirsSame(v: Vol, v': Vol, s: State, s': State, at: Places)
    requires DirsRep(v, s, at) && NumbersOk(s, at) && Dirs(v') == Dirs(v) && v'.dirs == v.dirs
    requires s'.dirs == s.dirs && s'.made == s.made && s'.files.Keys <= s.files.Keys
    ensures DirsRep(v', s', at) && NumbersOk(s', at)
  {
    assert Numbers(s') <= Numbers(s);
  }

  lemma Delivers(v: Vol, x: nat, d: nat, name: string, c: Content, buf: seq<Byte>, before: seq<Byte>, from: nat, n: nat)
    requires FileIs(v, x, d, name, c) && Delivered(v, x, buf, before, from, n) && |buf| == n && from <= SizeOf(c)
    ensures Knows(c, from, n, buf)
  {
    forall i: nat | i < n && from + i in c.known ensures buf[i] == c.known[from + i] {
      assert from + i in StoredBytes(v, x);
    }
  }

  // ----- removing a file

  lemma RemovedAside(v: Vol, v': Vol, x: nat, y: nat)
    requires x in v.chain && FileRemoved(v, v', x) && y in v.chain && y != x
    ensures SameFile(v, v', y)
  {
    assert Files(v')[y] == Files(v)[y];
  }

  lemma FilesLeft(v: Vol, v': Vol, s: State, at: Places, k: Key)
    requires NumbersOk(s, at) && FilesRep(v, s, at) && k in s.files && k in at.fileAt
    requires at.fileAt[k] in v.chain && FileRemoved(v, v', at.fileAt[k])
    ensures FilesRep(v', s.(files := s.files - {k}), at)
  {
    hide SameFile, FileRep, HasKey, NumbersOk, AllStoredKept;
    var s' := s.(files := s.files - {k});
    forall l | l in s'.files ensures FileRep(v', at, l, s'.files[l]) {
      FileIsThere(v, s, at, l);
      FilesDiffer(v, s, at, k, l);
      RemovedAside(v, v', at.fileAt[k], at.fileAt[l]);
      FileRepStays(v, v', s, at, at, l);
    }
    forall x | x in v'.chain ensures HasKey(s', at, x) {
      KeyStaysWithout(s, at, k, x);
    }
  }

  lemma KeyStaysWithout(s: State, at: Places, k: Key, x: nat)
    requires HasKey(s, at, x) && k in at.fileAt && at.fileAt[k] != x
    ensures HasKey(s.(files := s.files - {k}), at, x)
  {
    var l :| l in s.files && l in at.fileAt && at.fileAt[l] == x;
    assert l in s.files - {k};
  }

  /** remove gives back the inode and the frames. */
  lemma RemovedUsed(v: Vol, v': Vol, x: nat)
    requires Inv(v) && x in v.chain && FileRemoved(v, v', x)
    ensures |v'.used| == |v.used| - 1 - |v.chain[x]|
    ensures Dirs(v') == Dirs(v) && v'.dirs == v.dirs
  {
    hide Inv, AllStoredKept;
    ChainDistinct(v, x);
    ChainUsed(v, x);
    var gone := SetOf(v.chain[x]) + {x};
    assert v'.used == v.used - gone;
  }

  lemma ChainUsed(v: Vol, x: nat)
    requires Inv(v) && x in v.chain
    ensures SetOf(v.chain[x]) + {x} <= v.used && x !in SetOf(v.chain[x])
  {
    ChainFacts(v, x);
    OwnedAreUsed(v);
  }

  /** The descriptors of other files are not concerned. */
  lemma FdsLeft(v: Vol, fds: seq<Fd>, s: State, at: Places, fd: nat)
    requires FdsOk(v, fds) && FdsRep(fds, s, at) && IsOpened(s, fd)
    ensures var k := s.fds[fd].value.key;
      FdsRep(fds[fd := fds[fd].(valid := false)], s.(files := s.files - {k}, fds := s.fds[fd := None]), at)
  {
    var k := s.fds[fd].value.key;
    assert FdRep(fds[fd], s.fds[fd], s, at);
    var fds', s' := fds[fd := fds[fd].(valid := false)], s.(files := s.files - {k}, fds := s.fds[fd := None]);
    forall j: nat | j < |fds'| ensures FdRep(fds'[j], s'.fds[j], s', at) {
      assert FdRep(fds[j], s.fds[j], s, at);
    }
  }

  lemma FileGone(v: Vol, v': Vol, fds: seq<Fd>, s: State, at: Places, fd: nat)
    requires IsOpened(s, fd) && fd < |fds| && fds[fd].inodeBid in v.chain
    requires Inv(v) && FdsOk(v, fds) && Rep(v, fds, s, at) && FileRemoved(v, v', fds[fd].inodeBid)
    ensures Rep(v', fds[fd := fds[fd].(valid := false)], Removing(s, fd), at)
  {
    hide Inv, FdsOk, FileRep, HasKey, FdRep, FilesRep, DirsRep, NumbersOk, FdsRep, FileRemoved;
    var k, s' := s.fds[fd].value.key, Removing(s, fd);
    OpenFile(v, fds, s, at, fd);
    FilesLeft(v, v', s, at, k);
    FilesRelisted(v', s.(files := s.files - {k}), s', at);
    RemovedUsed(v, v', fds[fd].inodeBid);
    assert s'.files.Keys <= s.files.Keys;
    DirsSame(v, v', s, s', at);
    FdsLeft(v, fds, s, at, fd);
    FdsRelabelled(fds[fd := fds[fd].(valid := false)], s.(files := s.files - {k}, fds := s.fds[fd := None]), s', at);
  }

  lemma FdsRelabelled(fds: seq<Fd>, s: State, s': State, at: Places)
    requires FdsRep(fds, s, at) && s'.fds == s.fds && s'.files.Keys == s.files.Keys
    ensures FdsRep(fds, s', at)
  {
    forall j: nat | j < |fds| ensures FdRep(fds[j], s'.fds[j], s', at) {
      FdRepSame(fds[j], s.fds[j], s, s', at);
    }
  }

  // ----- making and mounting

  lemma FreshRep(v: Vol, fds: seq<Fd>)
    requires Dirs(v) == [] && Files(v) == map[] && v.used == {1, 2} && |fds| == MAX_OPENED_FILES
    requires forall i: nat :: i < |fds| ==> !fds[i].valid
    ensures Rep(v, fds, EmptyState(), Places(map[], map[]))
  {
    assert v.chain.Keys == {};
  }

  lemma ClosedRep(v: Vol, fds: seq<Fd>, fds': seq<Fd>, s: State, at: Places)
    requires Rep(v, fds, s, at) && |fds'| == MAX_OPENED_FILES && forall i: nat :: i < |fds'| ==> !fds'[i].valid
    ensures Rep(v, fds', After(s, RemountOp), at)
  {
    FilesRelisted(v, s, After(s, RemountOp), at);
    NumbersSame(s, After(s, RemountOp), at);
  }
  // ----- opening

  lemma {:induction false} ImageCount<K, T>(m: map<K, T>, ks: set<K>, xs: set<T>)
    requires forall x :: x in xs ==> Reaches(m, ks, x)
    ensures |xs| <= |ks|
    decreases |xs|
  {
    if x :| x in xs {
      assert Reaches(m, ks, x);
      var k :| k in ks && k in m && m[k] == x;
      forall y | y in xs - {x} ensures Reaches(m, ks - {k}, y) {
        assert Reaches(m, ks, y);
        var l :| l in ks && l in m && m[l] == y;
        assert l in ks - {k};
      }
      ImageCount(m, ks - {k}, xs - {x});
    }
  }

  ghost predicate Reaches<K, T>(m: map<K, T>, ks: set<K>, x: T) {
    exists k :: k in ks && k in m && m[k] == x
  }

  lemma DirCount(v: Vol, s: State, at: Places, n: nat)
    requires NumbersOk(s, at) && FilesRep(v, s, at) && n in Numbers(s)
    ensures n in at.dirAt && |FilesIn(v, at.dirAt[n])| <= |FilesOf(s, n)|
  {
    hide FilesRep;
    forall x | x in FilesIn(v, at.dirAt[n]) ensures Reaches(at.fileAt, FilesOf(s, n), x) {
      KeyOfFile(v, s, at, n, FileName(v, x), x);
      FileIsThere(v, s, at, (n, FileName(v, x)));
      assert (n, FileName(v, x)) in FilesOf(s, n);
    }
    ImageCount(at.fileAt, FilesOf(s, n), FilesIn(v, at.dirAt[n]));
  }

  lemma NotOpenYet(v: Vol, fds: seq<Fd>, s: State, at: Places, k: Key)
    requires NumbersOk(s, at) && FilesRep(v, s, at) && FdsRep(fds, s, at) && k in s.files
    requires forall i: nat :: i < |s.fds| && s.fds[i].Some? ==> s.fds[i].value.key != k
    ensures k in at.fileAt && !IsOpen(fds, at.fileAt[k])
  {
    hide FilesRep, NumbersOk;
    FileIsThere(v, s, at, k);
    forall i: nat | i < |fds| && fds[i].valid ensures fds[i].inodeBid != at.fileAt[k] {
      assert FdRep(fds[i], s.fds[i], s, at);
      FilesDiffer(v, s, at, k, s.fds[i].value.key);
    }
  }

  /** The file that may be opened in the plain model may be opened. */
  lemma MayOpenIt(v: Vol, fds: seq<Fd>, s: State, at: Places, k: Key)
    requires Inv(v) && Rep(v, fds, s, at) && k.0 in Numbers(s) && MayOpenKey(s, k)
    ensures k.0 in at.dirAt && MayOpen(v, fds, at.dirAt[k.0], k.1)
  {
    hide Inv, FilesRep, FdsRep, DirsRep;
    FileFound(v, s, at, k.0, k.1);
    if k in s.files {
      NotOpenYet(v, fds, s, at, k);
      forall x | FileAt(v, at.dirAt[k.0], k.1, x) ensures !IsOpen(fds, x) {
        KeyOfFile(v, s, at, k.0, k.1, x);
      }
    } else {
      NumberUsed(v, s, at, k.0);
      DirCount(v, s, at, k.0);
      FreeSlot(v, at.dirAt[k.0]);
    }
  }

  lemma FreeFdIs(fds: seq<Fd>, s: State, at: Places, i: nat)
    requires FdsRep(fds, s, at) && i <= |fds| && (i < |fds| ==> !fds[i].valid)
    requires forall k: nat :: k < i ==> fds[k].valid
    ensures FreeFd(s.fds) == i && |s.fds| == |fds|
  {
    var j := FreeFd(s.fds);
    assert j < |fds| ==> FdRep(fds[j], s.fds[j], s, at);
    assert i < |fds| ==> FdRep(fds[i], s.fds[i], s, at);
  }

  // ----- the operations

  ghost predicate RepOf(fs: FileSystem, s: State, at: Places)
    reads fs, fs.freemap, fs.fdtable
  {
    fs.Valid() && Rep(fs.V(), fs.fdtable[..], s, at)
  }

  method Mkdir(fs: FileSystem, name: string, ghost s: State, ghost at: Places) returns (reply: Reply, ghost at': Places)
    requires RepOf(fs, s, at) && Able(s, MkdirOp(name))
    modifies fs, fs.freemap
    ensures RepOf(fs, After(s, MkdirOp(name)), at') && Answers(s, MkdirOp(name), reply) && fs.freemap == old(fs.freemap)
  {
    hide Inv, FdOk, NumbersOk, FilesRep, FdsRep, DirCreated;
    ghost var v, fds := fs.V(), fs.fdtable[..];
    DirListed(v, s, at, name);
    var r := fs.Mkdir(name);
    reply, at' := Number(r), at;
    if !Listed(s, name) {
      at' := DirMade(v, fs.V(), fds, s, at, name);
    }
  }

  method Rmdir(fs: FileSystem, name: string, ghost s: State, ghost at: Places) returns (reply: Reply)
    requires RepOf(fs, s, at)
    modifies fs, fs.freemap
    ensures RepOf(fs, After(s, RmdirOp(name)), at) && Answers(s, RmdirOp(name), reply) && fs.freemap == old(fs.freemap)
  {
    hide Inv, FdOk, NumbersOk, FilesRep, FdsRep, DirRemoved, EmptyDir;
    ghost var v, fds := fs.V(), fs.fdtable[..];
    DirListed(v, s, at, name);
    var r := fs.Rmdir(name);
    reply := Number(r);
    if Listed(s, name) {
      ghost var i := IndexOf(s.dirs, name);
      ListedNumber(s, i);
      ListedUsed(v, s, at, i);
      EmptyOnBoth(v, s, at, s.dirs[i].number);
      if r == 0 {
        DirGone(v, fs.V(), fds, s, at, name);
      }
    }
  }

  method Open(fs: FileSystem, dirName: string, name: string, ghost s: State, ghost at: Places)
    returns (reply: Reply, ghost at': Places)
    requires RepOf(fs, s, at) && Able(s, OpenOp(dirName, name))
    modifies fs, fs.freemap, fs.fdtable
    ensures RepOf(fs, After(s, OpenOp(dirName, name)), at') && Answers(s, OpenOp(dirName, name), reply) && fs.freemap == old(fs.freemap)
  {
    hide Inv, FdOk, NumbersOk, FilesRep, FdsRep, Opened, MayOpen, MayOpenKey;
    ghost var v, fds, i := fs.V(), fs.fdtable[..], IndexOf(s.dirs, dirName);
    DirListed(v, s, at, dirName);
    if Listed(s, dirName) {
      ListedNumber(s, i);
      ListedUsed(v, s, at, i);
      MayOpenIt(v, fds, s, at, (s.dirs[i].number, name));
    }
    var fd := fs.Open(dirName, name);
    reply, at' := Number(fd), at;
    if fd == -1 {
      if Listed(s, dirName) {
        FreeFdIs(fds, s, at, |fds|);
      }
    } else {
      FreeFdIs(fds, s, at, fd);
      at' := OpenedRep(v, fs.V(), fds, fs.fdtable[..], s, at, (s.dirs[i].number, name), fd);
    }
  }

  lemma OpenedRep(v: Vol, v': Vol, fds: seq<Fd>, fds': seq<Fd>, s: State, at: Places, k: Key, fd: nat) returns (at': Places)
    requires Inv(v) && Rep(v, fds, s, at) && k.0 in Numbers(s) && k.0 in at.dirAt && |fds'| == |fds| && fd < |fds|
    requires Opened(v, v', at.dirAt[k.0], k.1, fds'[fd].inodeBid) && FreeFd(s.fds) == fd
    requires fds' == fds[fd := fds'[fd]] && fds'[fd].valid && fds'[fd].cur == 0
    ensures FreeFd(s.fds) < |s.fds| && Rep(v', fds', Opening(s, k), at')
  {
    hide Inv, NumbersOk, FilesRep, FdsRep, DirsRep, Opened;
    at' := FileOpened(v, v', fds, s, at, k, fds'[fd].inodeBid);
    FdSet(v', fds, WithFile(s, k), at', fd, fds'[fd], Some(Cursor(k, 0)));
  }
  method Close(fs: FileSystem, fd: nat, ghost s: State, ghost at: Places)
    requires RepOf(fs, s, at) && Able(s, CloseOp(fd))
    modifies fs.fdtable
    ensures RepOf(fs, After(s, CloseOp(fd)), at)
  {
    hide Inv, FdOk, NumbersOk, FilesRep;
    ghost var fds := fs.fdtable[..];
    fs.Close(fd);
    FdSet(fs.V(), fds, s, at, fd, fs.fdtable[fd], None);
  }

  method Remove(fs: FileSystem, fd: nat, ghost s: State, ghost at: Places)
    requires RepOf(fs, s, at) && Able(s, RemoveOp(fd))
    modifies fs, fs.freemap, fs.fdtable
    ensures RepOf(fs, After(s, RemoveOp(fd)), at) && fs.freemap == old(fs.freemap)
  {
    hide Inv, FdOk, NumbersOk, FilesRep, DirsRep, FdsRep, FileRemoved, Removing;
    ghost var v, fds := fs.V(), fs.fdtable[..];
    OpenFile(v, fds, s, at, fd);
    fs.Remove(fd);
    FileGone(v, fs.V(), fds, s, at, fd);
  }

  method Write(fs: FileSystem, fd: nat, bytes: seq<Byte>, ghost s: State, ghost at: Places) returns (reply: Reply)
    requires RepOf(fs, s, at) && Able(s, WriteOp(fd, bytes))
    modifies fs, fs.freemap, fs.fdtable
    ensures RepOf(fs, After(s, WriteOp(fd, bytes)), at) && Answers(s, WriteOp(fd, bytes), reply) && fs.freemap == old(fs.freemap)
  {
    hide Inv, FdOk, NumbersOk, FilesRep, DirsRep, FdsRep, FileWritten;
    ghost var v, fds := fs.V(), fs.fdtable[..];
    OpenFile(v, fds, s, at, fd);
    var n := fs.Write(fd, bytes, |bytes|);
    reply := Number(n);
    WrittenRep(v, fs.V(), fds, fs.fdtable[..], s, at, fd, bytes);
  }

  lemma WrittenRep(v: Vol, v': Vol, fds: seq<Fd>, fds': seq<Fd>, s: State, at: Places, fd: nat, bytes: seq<Byte>)
    requires Rep(v, fds, s, at) && IsOpened(s, fd) && fd < |fds| == |fds'|
    requires var n := Missing(s.files[s.fds[fd].value.key].frames, s.fds[fd].value.at + |bytes|);
      FileWritten(v, v', fds[fd].inodeBid, n, bytes, s.fds[fd].value.at) && |v'.used| == |v.used| + (FRAME_COUNT + 1) * n
    requires fds' == fds[fd := fds[fd].(inode := fds'[fd].inode, cur := s.fds[fd].value.at + |bytes|)]
    ensures Rep(v', fds', Writing(s, fd, bytes), at)
  {
    hide FilesRep, DirsRep, FdsRep, NumbersOk, FileWritten;
    OpenFile(v, fds, s, at, fd);
    var k, from := s.fds[fd].value.key, s.fds[fd].value.at;
    var n := Missing(s.files[k].frames, from + |bytes|);
    var c := Content(s.files[k].frames + n, WithBytes(s.files[k].known, from, bytes));
    var s1 := s.(files := s.files[k := c], used := s.used + (FRAME_COUNT + 1) * n);
    FileChanged(v, v', fds, s, at, k, n, bytes, from);
    FdSet(v', fds, s1, at, fd, fds'[fd], Some(Cursor(k, from + |bytes|)));
  }

  /** The cursor of a descriptor was moved, and nothing else. */
  lemma MovedRep(v: Vol, fds: seq<Fd>, fds': seq<Fd>, s: State, at: Places, fd: nat, cur: nat)
    requires Rep(v, fds, s, at) && IsOpened(s, fd) && fd < |fds|
    requires fds' == fds[fd := fds[fd].(cur := cur)]
    ensures Rep(v, fds', Moved(s, fd, cur), at)
  {
    hide FilesRep, DirsRep, FdsRep, NumbersOk;
    OpenFile(v, fds, s, at, fd);
    FdSet(v, fds, s, at, fd, fds'[fd], Some(Cursor(s.fds[fd].value.key, cur)));
  }

  method Seek(fs: FileSystem, fd: nat, relative: int, loc: int, ghost s: State, ghost at: Places) returns (reply: Reply)
    requires RepOf(fs, s, at) && Able(s, SeekOp(fd, relative, loc))
    modifies fs.fdtable
    ensures RepOf(fs, After(s, SeekOp(fd, relative, loc)), at) && Answers(s, SeekOp(fd, relative, loc), reply)
  {
    hide Inv, FdOk, NumbersOk, FilesRep, DirsRep, FdsRep, Sought;
    ghost var v, fds := fs.V(), fs.fdtable[..];
    OpenFile(v, fds, s, at, fd);
    var r := fs.Seek(fd, relative, loc);
    reply := Number(r);
    if r == 0 {
      MovedRep(v, fds, fs.fdtable[..], s, at, fd, Sought(if loc == 0 then 0 else s.fds[fd].value.at, relative));
    }
  }

  method Read(fs: FileSystem, fd: nat, length: nat, ghost s: State, ghost at: Places) returns (reply: Reply)
    requires RepOf(fs, s, at) && Able(s, ReadOp(fd, length))
    modifies fs.fdtable
    ensures RepOf(fs, After(s, ReadOp(fd, length)), at) && Answers(s, ReadOp(fd, length), reply)
  {
    hide Inv, FdOk, NumbersOk, FilesRep, DirsRep, FdsRep, Delivered, Knows;
    ghost var v, fds, k := fs.V(), fs.fdtable[..], s.fds[fd].value.key;
    OpenFile(v, fds, s, at, fd);
    var buf := new Byte[length];
    ghost var before := buf[..];
    var n := fs.Read(fd, buf, length);
    reply := Got(buf[..n]);
    ReadRep(v, fds, fs.fdtable[..], s, at, fd, length, n, buf[..], before, reply.bytes);
  }

  lemma ReadRep(v: Vol, fds: seq<Fd>, fds': seq<Fd>, s: State, at: Places, fd: nat, length: nat, n: nat,
                buf: seq<Byte>, before: seq<Byte>, bytes: seq<Byte>)
    requires Rep(v, fds, s, at) && Able(s, ReadOp(fd, length)) && fd < |fds| && fds[fd].inodeBid in v.chain
    requires var size, from := SizeOf(s.files[s.fds[fd].value.key]), s.fds[fd].value.at;
      && n == (if from > size then 0 else length) && |buf| == length && bytes == buf[..n]
      && Delivered(v, fds[fd].inodeBid, buf, before, if from > size then 0 else from, n)
      && fds' == fds[fd := fds[fd].(cur := from + n)]
    ensures Rep(v, fds', After(s, ReadOp(fd, length)), at) && Answers(s, ReadOp(fd, length), Got(bytes))
  {
    hide FilesRep, DirsRep, FdsRep, NumbersOk, Delivered, Knows, FileIs;
    var k, from := s.fds[fd].value.key, s.fds[fd].value.at;
    OpenFile(v, fds, s, at, fd);
    MovedRep(v, fds, fds', s, at, fd, from + n);
    if from > SizeOf(s.files[k]) {
      MovedNowhere(s, fd);
      NothingKnown(s.files[k], from, length);
      assert bytes == [];
    } else {
      assert bytes == buf;
      Delivers(v, fds[fd].inodeBid, at.dirAt[k.0], k.1, s.files[k], buf, before, from, n);
    }
  }

  lemma MovedNowhere(s: State, fd: nat)
    requires IsOpened(s, fd)
    ensures Moved(s, fd, s.fds[fd].value.at) == s
  {
  }

  lemma NothingKnown(c: Content, from: nat, length: nat)
    requires from > SizeOf(c)
    ensures Knows(c, from, length, [])
  {
  }

  method Lsdir(fs: FileSystem, ghost s: State, ghost at: Places) returns (reply: Reply)
    requires RepOf(fs, s, at)
    modifies fs
    ensures RepOf(fs, s, at) && Answers(s, LsdirOp, reply) && fs.freemap == old(fs.freemap)
  {
    hide Inv, FdOk, NumbersOk, FilesRep, FdsRep;
    var n := fs.Lsdir();
    reply := Number(n);
  }

  method Mkfs(fs: FileSystem) returns (ghost at: Places)
    requires fs.freemap.Length == FREEMAP_WORDS && fs.fdtable.Length == MAX_OPENED_FILES
    modifies fs, fs.freemap, fs.fdtable
    ensures RepOf(fs, EmptyState(), at) && fs.freemap == old(fs.freemap)
  {
    fs.Mkfs();
    FreshRep(fs.V(), fs.fdtable[..]);
    at := Places(map[], map[]);
  }

  /** A new process loads what the old one left in the backing file. */
  method Remount(fs: FileSystem, ghost s: State, ghost at: Places) returns (fs': FileSystem)
    requires RepOf(fs, s, at)
    ensures RepOf(fs', After(s, RemountOp), at) && fresh(fs') && fresh(fs'.freemap) && fresh(fs'.fdtable)
  {
    hide Inv, FdsOk, Rep;
    ghost var v, fds := fs.V(), fs.fdtable[..];
    fs' := new FileSystem();
    fs'.Reload(fs.disk, v);
    ClosedRep(v, fds, fs'.fdtable[..], s, at);
  }
  // ----- whole runs

  /** One operation, by whichever process has the file system mounted. */
  method Step(fs: FileSystem, op: Op, ghost s: State, ghost at: Places)
    returns (fs': FileSystem, reply: Reply, ghost at': Places)
    requires RepOf(fs, s, at) && Able(s, op)
    modifies fs, fs.freemap, fs.fdtable
    ensures RepOf(fs', After(s, op), at') && Answers(s, op, reply)
    ensures (fs' == fs && fs.freemap == old(fs.freemap)) || (fresh(fs') && fresh(fs'.freemap) && fresh(fs'.fdtable))
  {
    hide Rep, Inv, FdOk;
    fs', reply, at' := fs, Done, at;
    match op {
      case MkfsOp => at' := Mkfs(fs);
      case RemountOp => fs' := Remount(fs, s, at);
      case MkdirOp(name) => reply, at' := Mkdir(fs, name, s, at);
      case RmdirOp(name) => reply := Rmdir(fs, name, s, at);
      case LsdirOp => reply := Lsdir(fs, s, at);
      case OpenOp(dirName, name) => reply, at' := Open(fs, dirName, name, s, at);
      case CloseOp(fd) => Close(fs, fd, s, at);
      case RemoveOp(fd) => Remove(fs, fd, s, at);
      case WriteOp(fd, bytes) => reply := Write(fs, fd, bytes, s, at);
      case SeekOp(fd, relative, loc) => reply := Seek(fs, fd, relative, loc, s, at);
      case ReadOp(fd, length) => reply := Read(fs, fd, length, s, at);
    }
  }

  method Run(fs: FileSystem, ops: seq<Op>, ghost s: State, ghost at: Places)
    returns (fs': FileSystem, replies: seq<Reply>, ghost at': Places)
    requires RepOf(fs, s, at) && AllAble(s, ops)
    modifies fs, fs.freemap, fs.fdtable
    ensures RepOf(fs', Final(s, ops), at') && AllAnswer(s, ops, replies)
    decreases |ops|
  {
    hide RepOf, Answers, Able, After;
    if ops == [] {
      fs', replies, at' := fs, [], at;
    } else {
      var fs1, reply;
      ghost var at1;
      fs1, reply, at1 := Step(fs, ops[0], s, at);
      var rest;
      fs', rest, at' := Run(fs1, ops[1..], After(s, ops[0]), at1);
      replies := [reply] + rest;
      assert replies[1..] == rest;
    }
  }

  /** Any run of operations on a new file system gives the answers of the plain model,
      and leaves the directories, files, descriptors and blocks in use that it has. */
  method Serve(ops: seq<Op>) returns (fs: FileSystem, replies: seq<Reply>, ghost at: Places)
    requires AllAble(EmptyState(), ops)
    ensures RepOf(fs, Final(EmptyState(), ops), at) && AllAnswer(EmptyState(), ops, replies)
  {
    hide RepOf, AllAble, AllAnswer, Final;
    fs := new FileSystem();
    at := Mkfs(fs);
    fs, replies, at := Run(fs, ops, EmptyState(), at);
  }
}
