/** RecordCmFsOps, which records what goes through it, over the system calls of FsFns. */
module Recorder {
  import opened Bytes
  import opened DiskMods
  import opened Kernel
  import opened LogSemantics
  import ChangeLog
  import Posix

  /** The file-system functions both wrappers call. */
  class FsFns {
    var w: World

    constructor (w: World)
      ensures this.w == w
    {
      this.w := w;
    }

    method FnMkdir(path: Path) returns (res: int)
      modifies this
      ensures (w, res) == SysMkdir(old(w), path)
    {
      var (after, r) := SysMkdir(w, path);
      w, res := after, r;
    }

    method FnOpen(path: Path, flags: Flags) returns (res: int)
      modifies this
      ensures (w, res) == SysOpen(old(w), path, flags)
    {
      var (after, r) := SysOpen(w, path, flags);
      w, res := after, r;
    }

    method FnLseek(fd: int, offset: int, whence: Whence) returns (res: int)
      modifies this
      ensures (w, res) == SysLseek(old(w), fd, offset, whence)
    {
      var (after, r) := SysLseek(w, fd, offset, whence);
      w, res := after, r;
    }

    method FnWrite(fd: int, buf: seq<byte>) returns (res: int)
      modifies this
      ensures (w, res) == SysWrite(old(w), fd, buf)
    {
      var (after, r) := SysWrite(w, fd, buf);
      w, res := after, r;
    }

    method FnPwrite(fd: int, buf: seq<byte>, offset: int) returns (res: int)
      modifies this
      ensures (w, res) == SysPwrite(old(w), fd, buf, offset)
    {
      var (after, r) := SysPwrite(w, fd, buf, offset);
      w, res := after, r;
    }

    method FnMmap(fd: int, length: nat, writable: bool, shared: bool, offset: nat) returns (res: int)
      modifies this
      ensures (w, res) == SysMmap(old(w), fd, length, writable, shared, offset)
    {
      var (after, r) := SysMmap(w, fd, length, writable, shared, offset);
      w, res := after, r;
    }

    method FnMsync(addr: int, length: nat) returns (res: int)
      modifies this
      ensures (w, res) == SysMsync(old(w), addr, length)
    {
      var (after, r) := SysMsync(w, addr, length);
      w, res := after, r;
    }

    method FnMunmap(addr: int, length: nat) returns (res: int)
      modifies this
      ensures (w, res) == SysMunmap(old(w), addr, length)
    {
      var (after, r) := SysMunmap(w, addr, length);
      w, res := after, r;
    }

    method FnFallocate(fd: int, mode: FallocMode, offset: int, len: int) returns (res: int)
      modifies this
      ensures (w, res) == SysFallocate(old(w), fd, mode, offset, len)
    {
      var (after, r) := SysFallocate(w, fd, mode, offset, len);
      w, res := after, r;
    }

    method FnClose(fd: int) returns (res: int)
      modifies this
      ensures (w, res) == SysClose(old(w), fd)
    {
      var (after, r) := SysClose(w, fd);
      w, res := after, r;
    }

    method FnRename(oldPath: Path, newPath: Path) returns (res: int)
      modifies this
      ensures (w, res) == SysRename(old(w), oldPath, newPath)
    {
      var (after, r) := SysRename(w, oldPath, newPath);
      w, res := after, r;
    }

    method FnUnlink(path: Path) returns (res: int)
      modifies this
      ensures (w, res) == SysUnlink(old(w), path)
    {
      var (after, r) := SysUnlink(w, path);
      w, res := after, r;
    }

    method FnRemove(path: Path) returns (res: int)
      modifies this
      ensures (w, res) == SysRemove(old(w), path)
    {
      var (after, r) := SysRemove(w, path);
      w, res := after, r;
    }

    /** fsync, fdatasync and sync_file_range, which leave contents and names alone. */
    method FnFlush(fd: int) returns (res: int)
      modifies this
      ensures (w, res) == SysFlush(old(w), fd)
    {
      var (after, r) := SysFlush(w, fd);
      w, res := after, r;
    }

    /** Not a call: the workload stores to its own memory. */
    method Store(a: int, distance: nat, data: seq<byte>) returns (res: int)
      modifies this
      ensures (w, res) == SysStore(old(w), a, distance, data)
    {
      var (after, r) := SysStore(w, a, distance, data);
      w, res := after, r;
    }

    method FnStat(path: Path) returns (res: int, stat: Stat)
      ensures match SysStat(w, path)
        case Some(s) => res == 0 && stat == s
        case None => res == -1
    {
      match SysStat(w, path)
      case Some(s) => return 0, s;
      case None => return -1, Stat(0, 0, false);
    }

    method FnPathExists(path: Path) returns (res: bool)
      ensures res <==> path in w.nodes
    {
      return path in w.nodes;
    }

    /** The checkpoint action always answers 1. */
    method CmCheckpoint() returns (res: int)
      ensures res == 1
    {
      return 1;
    }
  }

  // --------------------------------------------------- what the recorder knows

  function Paths(fds: map<int, OpenFile>): (paths: map<int, Path>)
    ensures paths.Keys == fds.Keys && forall fd <- fds :: paths[fd] == fds[fd].path
  {
    map fd | fd in fds :: fds[fd].path
  }

  datatype Tracked = Tracked(path: Path, offset: nat, length: nat)

  /** The mappings the recorder is to know, with what is left of their numbers in 32 bits. */
  function TrackedMaps(maps: map<int, Mapping>): (ts: map<int, Tracked>)
    ensures forall a <- ts :: ts[a].offset < TWO_32 && ts[a].length < TWO_32
  {
    map a | a in maps && maps[a].tracked :: Tracked(maps[a].path, maps[a].offset % TWO_32, maps[a].length % TWO_32)
  }

  /** What the recorder knows: the paths of descriptors, and mappings. */
  datatype Known = Known(paths: map<int, Path>, maps: map<int, Tracked>)

  /** The same mappings, but for what their files are called. */
  predicate SameRanges(a: map<int, Tracked>, b: map<int, Tracked>) {
    a.Keys == b.Keys && forall k <- a :: a[k].offset == b[k].offset && a[k].length == b[k].length
  }

  /** The recorder does not follow what becomes of a mapped file. */
  lemma SameTracked(a: map<int, Mapping>, b: map<int, Mapping>)
    requires a.Keys == b.Keys && forall k <- a :: a[k].(file := None) == b[k].(file := None)
    ensures TrackedMaps(a) == TrackedMaps(b)
  {
    assert forall k <- a :: a[k].path == b[k].path && a[k].offset == b[k].offset && a[k].length == b[k].length
                            && a[k].tracked == b[k].tracked;
    if TrackedMaps(a).Keys == TrackedMaps(b).Keys {
      assert TrackedMaps(a) == TrackedMaps(b);
    }
  }

  lemma SomeMember(s: set<int>)
    ensures s == {} || exists k :: k in s
  {
    if !exists k :: k in s {
      assert s == {};
    }
  }

  /** A change the serialiser takes, given a path that is a C string of ordinary length. */
  predicate Sane(m: Mod) {
    Consistent(m) && m.fileModLocation <= MAX_OFF && m.fileModLen <= MAX_OFF
  }

  lemma SaneIsLoggable(m: Mod)
    requires Sane(m) && NulFree(m.path) && |m.path| + 2 < TWO_31
    ensures ChangeLog.Loggable(m)
  {
  }

  // ------------------------------------------------------------- path updates

  predicate OccursAt(s: seq<byte>, pat: seq<byte>, i: int) {
    0 <= i && i + |pat| <= |s| && s[i..i + |pat|] == pat
  }

  /** std::string::find: the first occurrence. */
  function Find(s: seq<byte>, pat: seq<byte>): (r: Option<nat>)
    ensures r.Some? ==> OccursAt(s, pat, r.value) && forall i :: i < r.value ==> !OccursAt(s, pat, i)
    ensures r.None? ==> forall i :: !OccursAt(s, pat, i)
  {
    if |pat| > |s| then None
    else if s[..|pat|] == pat then Some(0)
    else
      OccursBehind(s, pat);
      match Find(s[1..], pat)
      case None => None
      case Some(i) => Some(i + 1)
  }

  lemma OccursBehind(s: seq<byte>, pat: seq<byte>)
    requires s != []
    ensures forall i :: i >= 1 && OccursAt(s, pat, i) ==> OccursAt(s[1..], pat, i - 1)
    ensures forall i :: i >= 0 && OccursAt(s[1..], pat, i) ==> OccursAt(s, pat, i + 1)
  {
    hide OccursAt;
    forall i | i >= 1 && OccursAt(s, pat, i)
      ensures OccursAt(s[1..], pat, i - 1)
    {
      OccursShift(s, pat, i - 1);
    }
    forall i | i >= 0 && OccursAt(s[1..], pat, i)
      ensures OccursAt(s, pat, i + 1)
    {
      OccursShift(s, pat, i);
    }
  }

  lemma OccursShift(s: seq<byte>, pat: seq<byte>, i: nat)
    requires s != []
    ensures OccursAt(s[1..], pat, i) <==> OccursAt(s, pat, i + 1)
  {
    if i + 1 + |pat| <= |s| {
      assert s[1..][i..i + |pat|] == s[i + 1..i + 1 + |pat|];
    }
  }

  /** What the rename loop makes of the path of an open descriptor. */
  function RenamedOpenPath(p: Path, o: Path, n: Path): Path {
    if p == o then n
    else match Find(p, o)
      case None => p
      case Some(i) => p[..i] + n + p[i + |o|..]
  }

  lemma RenamedCases(p: Path, o: Path, n: Path)
    ensures p == o ==> RenamedOpenPath(p, o, n) == n
    ensures p != o && Find(p, o).None? ==> RenamedOpenPath(p, o, n) == p
    ensures p != o && Find(p, o).Some? ==>
      RenamedOpenPath(p, o, n) == p[..Find(p, o).value] + n + p[Find(p, o).value + |o|..]
  {
    hide Find;
  }

  /**
   The loop in terms of the paths alone: a path that is the old one becomes the new one, of any other
   the first occurrence of the old one is replaced, and one without an occurrence stays as it is.
   */
  lemma RenameReplacesFirst(p: Path, o: Path, n: Path, a: Path, b: Path)
    ensures p == o ==> RenamedOpenPath(p, o, n) == n
    ensures p != o && p == a + o + b && (forall a2, b2 | p == a2 + o + b2 :: |a| <= |a2|) ==>
      RenamedOpenPath(p, o, n) == a + n + b
    ensures p != o && (forall a2, b2 :: p != a2 + o + b2) ==> RenamedOpenPath(p, o, n) == p
  {
    hide Find;
    if p != o {
      match Find(p, o)
      case None =>
        OccursInParts(a, o, b);
      case Some(i) =>
        assert p == p[..i] + o + p[i + |o|..];
        if p == a + o + b && forall a2, b2 | p == a2 + o + b2 :: |a| <= |a2| {
          assert |a| <= i;
          OccursInParts(a, o, b);
          assert |a| == i;
          assert p[..i] == a && p[i + |o|..] == b;
        }
    }
  }

  lemma OccursInParts(a: Path, o: Path, b: Path)
    ensures OccursAt(a + o + b, o, |a|)
  {
    assert (a + o + b)[|a|..|a| + |o|] == o;
  }

  /** What the loop makes of all of them. */
  function RenamedPaths(paths: map<int, Path>, o: Path, n: Path): map<int, Path> {
    map fd | fd in paths :: RenamedOpenPath(paths[fd], o, n)
  }

  /** The old path does not occur in `p`, or only as `p` itself or as a directory `p` lies in. */
  ghost predicate RenameSafe(p: Path, o: Path, n: Path) {
    o == n || p == o || Under(o, p) || forall i :: !OccursAt(p, o, i)
  }

  /** The loop follows the kernel on exactly those paths. */
  lemma RenameExact(p: Path, o: Path, n: Path)
    requires o != []
    ensures RenamedOpenPath(p, o, n) == Moved(p, o, n) <==> RenameSafe(p, o, n)
  {
    var r := RenamedOpenPath(p, o, n);
    UnderOccurs(p, o);
    if p != o {
      match Find(p, o)
      case None =>
      case Some(i) =>
        assert p == p[..i] + o + p[i + |o|..];
        if Under(o, p) {
          assert r == [] + n + p[|o|..];
        } else {
          ReplacedDiffers(p, i, o, n);
        }
    }
  }

  /** The safe paths and where the kernel takes a path, in terms of paths alone; 47 is '/'. */
  lemma RenameSafeIs(p: Path, o: Path, n: Path)
    ensures RenameSafe(p, o, n) <==> o == n || p == o || o + [47] <= p || forall a, b :: p != a + o + b
    ensures Moved(p, o, n) == if p == o then n else if o + [47] <= p then n + p[|o|..] else p
  {
    if a, b :| p == a + o + b {
      OccursInParts(a, o, b);
    }
    if i :| OccursAt(p, o, i) {
      assert p == p[..i] + o + p[i + |o|..];
    }
  }

  lemma UnderOccurs(p: Path, o: Path)
    ensures Under(o, p) ==> OccursAt(p, o, 0)
  {
    if Under(o, p) {
      assert p[..|o|] == (o + [SLASH])[..|o|];
    }
  }

  lemma ReplacedDiffers(p: Path, i: nat, o: Path, n: Path)
    requires OccursAt(p, o, i)
    ensures p[..i] + n + p[i + |o|..] == p <==> o == n
  {
    var r := p[..i] + n + p[i + |o|..];
    assert p == p[..i] + o + p[i + |o|..];
    if r == p {
      assert |n| == |o|;
      assert n == r[i..i + |n|] == p[i..i + |o|] == o;
    }
  }

  /** The loop leaves a path alone exactly when the old path does not occur in it. */
  lemma RenameIdle(p: Path, o: Path, n: Path)
    ensures RenamedOpenPath(p, o, n) == p <==> o == n || forall i :: !OccursAt(p, o, i)
  {
    if p == o {
      assert OccursAt(p, o, 0);
    }
    match Find(p, o)
    case None =>
    case Some(i) => ReplacedDiffers(p, i, o, n);
  }

  // ------------------------------------------------------------ the recorder

  /** The change a successful write or pwrite is recorded as. */
  function WriteMod(path: Path, pre: Stat, post: Stat, location: nat, data: seq<byte>): Mod {
    EMPTY_MOD.(path := path, modType := if pre.size != post.size then DataMetadata else Data,
               postModStats := post, fileModData := data, fileModLocation := location, fileModLen := |data|)
  }

  /** A write to the file of `fd` lands where the recorder believes it does. */
  predicate LandsAt(w: World, fd: int, at: int) {
    fd in w.fds && at >= 0 && w.fds[fd].live && WriteOffset(w, w.fds[fd], at) == at
  }

  /** What a store changes in the files is what the recorded write says. */
  lemma StoreIsRecorded(w: World, fd: int, buf: seq<byte>, at: nat, pre: Stat, post: Stat)
    requires fd in w.fds && LandsAt(w, fd, at) && w.fds[fd].path in w.nodes
    ensures var (after, n) := Stored(w, fd, buf, at);
      n >= 0 ==> View(after.nodes) == ApplyMod(View(w.nodes), WriteMod(w.fds[fd].path, pre, post, at, buf[..n]))
  {
    var (after, n) := Stored(w, fd, buf, at);
    if n >= 0 && w.nodes[w.fds[fd].path].File? {
      ViewUpdate(w.nodes, w.fds[fd].path, after.nodes[w.fds[fd].path]);
    }
  }

  /** How many of `n` bytes a write moves, whatever they are. */
  function BytesMoved(w: World, fd: int, n: nat, at: nat): int
    requires fd in w.fds
  {
    Stored(w, fd, Zeros(n), at).1
  }

  /** The record of a write, applied to the files before, gives the files after. */
  ghost predicate RecordTells(w: World, fd: int, buf: seq<byte>, at: nat, pre: Stat, post: Stat)
    requires fd in w.fds
  {
    var (after, n) := Stored(w, fd, buf, at);
    0 <= n <= |buf| ==> View(after.nodes) == ApplyMod(View(w.nodes), WriteMod(w.fds[fd].path, pre, post, at, buf[..n]))
  }

  /**
   What is recorded of a write that moves bytes is right for all data if and only if the data landed
   where the recorder looked: not in an unlinked file, and not elsewhere because of O_APPEND.
   */
  lemma WriteRecordExact(w: World, fd: int, n: nat, at: nat, pre: Stat, post: Stat)
    requires fd in w.fds && w.fds[fd].path in w.nodes && w.nodes[w.fds[fd].path].File?
    ensures (forall buf | |buf| == n :: RecordTells(w, fd, buf, at, pre, post))
       <==> LandsAt(w, fd, at) || BytesMoved(w, fd, n, at) <= 0
  {
    if LandsAt(w, fd, at) || BytesMoved(w, fd, n, at) <= 0 {
      forall buf | |buf| == n
        ensures RecordTells(w, fd, buf, at, pre, post)
      {
        MovesAlike(w, fd, buf, at);
        if LandsAt(w, fd, at) {
          StoreIsRecorded(w, fd, buf, at, pre, post);
        } else {
          NothingMoved(w, fd, buf, at, pre, post);
        }
      }
    } else {
      var buf := Misrecorded(w, fd, n, at, pre, post);
    }
  }

  lemma MovesAlike(w: World, fd: int, buf: seq<byte>, at: nat)
    requires fd in w.fds
    ensures Stored(w, fd, buf, at).1 == BytesMoved(w, fd, |buf|, at) <= |buf|
  {
  }

  lemma NothingMoved(w: World, fd: int, buf: seq<byte>, at: nat, pre: Stat, post: Stat)
    requires fd in w.fds && w.fds[fd].path in w.nodes && w.nodes[w.fds[fd].path].File?
    requires Stored(w, fd, buf, at).1 <= 0
    ensures RecordTells(w, fd, buf, at, pre, post)
  {
    var path := w.fds[fd].path;
    var (after, n) := Stored(w, fd, buf, at);
    if n == 0 {
      assert buf[..n] == [];
      assert View(w.nodes)[path := Some(w.nodes[path].content)] == View(w.nodes);
      ViewUpdate(w.nodes, path, after.nodes[path]);
    }
  }

  /** Data whose first byte is not the one the file has where the recorder looked. */
  lemma Misrecorded(w: World, fd: int, n: nat, at: nat, pre: Stat, post: Stat) returns (buf: seq<byte>)
    requires fd in w.fds && w.fds[fd].path in w.nodes && w.nodes[w.fds[fd].path].File?
    requires !LandsAt(w, fd, at) && BytesMoved(w, fd, n, at) > 0
    ensures |buf| == n && !RecordTells(w, fd, buf, at, pre, post)
  {
    var path := w.fds[fd].path;
    var content := w.nodes[path].content;
    buf := seq<byte>(n, _ => if at < |content| && content[at] == 0 then 1 else 0);
    MovesAlike(w, fd, buf, at);
    var (after, moved) := Stored(w, fd, buf, at);
    var told := ApplyMod(View(w.nodes), WriteMod(path, pre, post, at, buf[..moved]));
    assert told[path].value == Splice(content, at, buf[..moved]);
    if w.fds[fd].live {
      assert View(after.nodes)[path].value == Splice(content, |content|, buf[..moved]);
    } else {
      assert View(after.nodes)[path].value == content;
      assert told[path].value[at] == buf[0];
    }
  }

  lemma WriteIsRecorded(w: World, fd: int, buf: seq<byte>, pre: Stat, post: Stat)
    requires Sound(w) && fd in w.fds && LandsAt(w, fd, w.fds[fd].pos)
    ensures var (after, n) := SysWrite(w, fd, buf);
      n >= 0 ==>
        && n <= |buf|
        && View(after.nodes) == ApplyMod(View(w.nodes), WriteMod(w.fds[fd].path, pre, post, w.fds[fd].pos, buf[..n]))
  {
    StoreIsRecorded(w, fd, buf, w.fds[fd].pos, pre, post);
  }

  lemma SeekIsIdle(w: World, fd: int)
    requires Sound(w) && fd in w.fds
    ensures SysLseek(w, fd, 0, SeekCur) == (w, w.fds[fd].pos) && 0 <= w.fds[fd].pos <= MAX_OFF
  {
    assert w.fds[fd := w.fds[fd]] == w.fds;
  }

  /** A write changes no name, no kind of node, no descriptor's path and no mapping. */
  lemma WriteIsSound(w: World, fd: int, buf: seq<byte>)
    requires Sound(w) && fd in w.fds
    ensures var (after, n) := SysWrite(w, fd, buf);
      && Sound(after) && Paths(after.fds) == Paths(w.fds) && after.maps == w.maps && n <= Min(|buf|, MAX_RW_COUNT)
      && after.nodes.Keys == w.nodes.Keys && (n < 0 ==> after.nodes == w.nodes)
      && (n >= 0 && LandsAt(w, fd, w.fds[fd].pos) ==> w.nodes[w.fds[fd].path].File?)
      && forall p <- w.nodes :: after.nodes[p].Dir? == w.nodes[p].Dir?
  {
  }

  lemma PwriteIsSound(w: World, fd: int, buf: seq<byte>, offset: int)
    requires Sound(w) && fd in w.fds
    ensures var (after, n) := SysPwrite(w, fd, buf, offset);
      && Sound(after) && Paths(after.fds) == Paths(w.fds) && after.maps == w.maps && n <= Min(|buf|, MAX_RW_COUNT)
      && after.nodes.Keys == w.nodes.Keys && (n < 0 ==> after.nodes == w.nodes)
      && (n >= 0 ==> offset >= 0 && SysPwrite(w, fd, buf, offset) == Stored(w, fd, buf, offset))
      && (n >= 0 && LandsAt(w, fd, offset) ==> w.nodes[w.fds[fd].path].File?)
  {
  }

  class RecordCmFsOps {
    var fdMap: map<int, Path>
    var mmapMap: map<int, Tracked>
    var mods: seq<Mod>
    const fns: FsFns
    /** The files when recording began. */
    ghost const start: Files

    constructor (functions: FsFns)
      requires Sound(functions.w) && functions.w.fds == map[] && functions.w.maps == map[]
      ensures fns == functions && mods == [] && fdMap == map[] && mmapMap == map[] && Valid() && Faithful()
    {
      fdMap, mmapMap, mods := map[], map[], [];
      fns := functions;
      start := View(functions.w.nodes);
    }

    /** What the calls need: every open descriptor and mapping is known, under whatever path. */
    ghost predicate Tracks()
      reads this, fns
    {
      && Sound(fns.w)
      && fdMap.Keys == fns.w.fds.Keys
      && SameRanges(mmapMap, TrackedMaps(fns.w.maps))
      && forall m <- mods :: Sane(m)
    }

    /** The maps are in step with the kernel, paths included, and the log holds nothing malformed. */
    ghost predicate Valid()
      reads this, fns
    {
      Tracks() && fdMap == Paths(fns.w.fds) && mmapMap == TrackedMaps(fns.w.maps)
    }

    ghost function Knows(): Known
      reads this
    {
      Known(fdMap, mmapMap)
    }

    /** The log applied to the files recording began with gives the files there are. */
    ghost predicate Faithful()
      reads this, fns
    {
      ApplyLog(start, mods) == View(fns.w.nodes)
    }

    method Push(m: Mod)
      requires Tracks() && Sane(m)
      modifies this`mods
      ensures mods == old(mods) + [m] && Tracks() && (Valid() <==> old(Valid()))
      ensures ApplyLog(start, mods) == ApplyMod(ApplyLog(start, old(mods)), m)
    {
      hide Sound, ApplyLog, ApplyMod, Consistent, TrackedMaps, Paths;
      ApplyLogAppend(start, mods, m);
      mods := mods + [m];
    }

    method CmMkdir(path: Path) returns (res: int)
      requires Tracks()
      modifies this`mods, fns
      ensures (fns.w, res) == SysMkdir(old(fns.w), path)
      ensures Tracks() && (old(Valid()) ==> Valid()) && (old(Faithful()) ==> Faithful())
      ensures mods == old(mods) +
        if res < 0 then [] else [Mod(path, Create, NoneOpt, Stat(0, 0, false), true, [], 0, 0, [])]
    {
      res := fns.FnMkdir(path);
      if res < 0 {
        return;
      }
      var mod := EMPTY_MOD;
      mod := mod.(directoryMod := true);
      mod := mod.(path := path);
      mod := mod.(modType := Create);
      mod := mod.(modOpts := NoneOpt);
      ViewUpdate(old(fns.w).nodes, path, Dir);
      Push(mod);
    }

    /** CmOpenCommon: remember the descriptor; record a creation or a truncation. */
    method CmOpenCommon(fd: int, path: Path, existed: bool, flags: Flags)
      requires fd !in fdMap && path in fns.w.nodes && (existed && flags.trunc ==> fns.w.nodes[path].File?)
      requires Sound(fns.w) && fdMap[fd := path].Keys == fns.w.fds.Keys
      requires SameRanges(mmapMap, TrackedMaps(fns.w.maps)) && forall m <- mods :: Sane(m)
      modifies this`fdMap, this`mods
      ensures Tracks() && fdMap == old(fdMap)[fd := path]
      ensures mods == old(mods) + OpenMods(path, existed, flags, fns.w.nodes[path])
    {
      if fd !in fdMap {
        fdMap := fdMap[fd := path];
      }
      if !existed || flags.trunc {
        var mod := EMPTY_MOD;
        var postStatRes, postModStats := fns.FnStat(path);
        mod := mod.(postModStats := postModStats);
        if postStatRes < 0 {
          return;
        }
        mod := mod.(directoryMod := mod.postModStats.isDir);
        if !existed {
          mod := mod.(modType := Create);
          mod := mod.(modOpts := NoneOpt);
        } else {
          mod := mod.(modType := DataMetadata);
          mod := mod.(modOpts := Truncate);
        }
        mod := mod.(path := path);
        Push(mod);
      }
    }

    method CmOpen(path: Path, flags: Flags) returns (res: int)
      requires Tracks()
      modifies this`fdMap, this`mods, fns
      ensures (fns.w, res) == SysOpen(old(fns.w), path, flags)
      ensures Tracks() && (old(Valid()) ==> Valid()) && (old(Faithful()) ==> Faithful())
      ensures fdMap == if res < 0 then old(fdMap) else old(fdMap)[res := path]
      ensures mods == old(mods) +
        if res < 0 then [] else OpenMods(path, path in old(fns.w).nodes, flags, fns.w.nodes[path])
      ensures mods == old(mods) +
        if res >= 0 && path !in old(fns.w).nodes then
          [Mod(path, Create, NoneOpt, Stat(0, 0, false), false, [], 0, 0, [])]
        else if res >= 0 && flags.trunc then
          [Mod(path, DataMetadata, Truncate, Stat(0, 0, false), false, [], 0, 0, [])]
        else []
    {
      hide ApplyLog, Sound, View, TrackedMaps, OpenMods, SysOpen;
      OpenIsSound(fns.w, path, flags);
      var existed := fns.FnPathExists(path);
      res := fns.FnOpen(path, flags);
      if res < 0 {
        return;
      }
      if ApplyLog(start, mods) == View(old(fns.w).nodes) {
        OpenIsRecorded(old(fns.w), path, flags, start, mods);
      }
      CmOpenCommon(res, path, existed, flags);
      OpenModsAre(old(fns.w), path, flags);
    }

    method CmLseek(fd: int, offset: int, whence: Whence) returns (res: int)
      requires Tracks()
      modifies fns
      ensures (fns.w, res) == SysLseek(old(fns.w), fd, offset, whence)
      ensures Tracks() && (old(Valid()) ==> Valid()) && (old(Faithful()) ==> Faithful())
    {
      res := fns.FnLseek(fd, offset, whence);
    }

    /**
     A write the recorder lets through is the kernel's write; it refuses one whose recorded path is
     gone. What it records is what happened if the data landed where it looked (WriteRecordExact).
     */
    method CmWrite(fd: int, buf: seq<byte>) returns (res: int)
      requires Tracks() && fd in fdMap
      modifies this`mods, fns
      ensures fdMap[fd] in old(fns.w).nodes ==> (fns.w, res) == SysWrite(old(fns.w), fd, buf)
      ensures fdMap[fd] !in old(fns.w).nodes ==> res == -1 && fns.w == old(fns.w)
      ensures Tracks() && (old(Valid()) ==> Valid())
      ensures fdMap[fd] == old(fns.w).fds[fd].path ==>
        (old(Faithful()) && LandsAt(old(fns.w), fd, old(fns.w).fds[fd].pos) ==> Faithful())
      ensures res < 0 ==> mods == old(mods)
      ensures res >= 0 && old(fns.w).nodes[fdMap[fd]].File? ==>
        mods == old(mods) + [WriteMod(fdMap[fd], StatOf(old(fns.w).nodes[fdMap[fd]]),
                                      StatOf(fns.w.nodes[fdMap[fd]]), old(fns.w).fds[fd].pos, buf[..res])]
      ensures res >= 0 && old(fns.w).nodes[fdMap[fd]].File? && fns.w.nodes[fdMap[fd]].File? ==>
        var before, after := old(fns.w).nodes[fdMap[fd]], fns.w.nodes[fdMap[fd]];
        mods == old(mods) +
          [Mod(fdMap[fd], if |before.content| == |after.content| then Data else DataMetadata, NoneOpt,
               Stat(|after.content|, after.blocks, false), false, buf[..res], old(fns.w).fds[fd].pos, res, [])]
      ensures res >= 0 && old(fns.w).nodes[fdMap[fd]].Dir? ==>
        mods == old(mods) +
          [Mod([], Create, NoneOpt, Stat(0, 0, false), true, [], old(fns.w).fds[fd].pos, 0, [])]
    {
      hide Sound, ApplyLog, ApplyMod, TrackedMaps, Paths, View, SysWrite, SysLseek, Stored, LandsAt;
      var mod := EMPTY_MOD;
      mod := mod.(modOpts := NoneOpt);
      var statRes, preStat := fns.FnStat(fdMap[fd]);
      if statRes < 0 {
        return statRes;
      }
      var position := fns.FnLseek(fd, 0, SeekCur);
      SeekIsIdle(old(fns.w), fd);
      assert fns.w == old(fns.w) && position == fns.w.fds[fd].pos;
      WriteIsSound(fns.w, fd, buf);
      mod := mod.(fileModLocation := position);
      var writeRes := fns.FnWrite(fd, buf);
      if writeRes < 0 {
        return writeRes;
      }
      mod := mod.(directoryMod := preStat.isDir);
      if !mod.directoryMod {
        mod := mod.(fileModLen := writeRes);
        mod := mod.(path := fdMap[fd]);
        var postRes, postStat := fns.FnStat(fdMap[fd]);
        mod := mod.(postModStats := postStat);
        if postRes < 0 {
          return writeRes;
        }
        mod := mod.(modType := if preStat.size != postStat.size then DataMetadata else Data);
        if writeRes > 0 {
          mod := mod.(fileModData := buf[..writeRes]);
        }
        if LandsAt(old(fns.w), fd, position) && fdMap[fd] == old(fns.w).fds[fd].path {
          WriteIsRecorded(old(fns.w), fd, buf, preStat, postStat);
        }
      }
      Push(mod);
      return writeRes;
    }

    /** As CmWrite, at a position of the caller's. */
    method CmPwrite(fd: int, buf: seq<byte>, offset: int) returns (res: int)
      requires Tracks() && fd in fdMap && offset <= MAX_OFF
      modifies this`mods, fns
      ensures fdMap[fd] in old(fns.w).nodes ==> (fns.w, res) == SysPwrite(old(fns.w), fd, buf, offset)
      ensures fdMap[fd] !in old(fns.w).nodes ==> res == -1 && fns.w == old(fns.w)
      ensures Tracks() && (old(Valid()) ==> Valid())
      ensures fdMap[fd] == old(fns.w).fds[fd].path ==>
        (old(Faithful()) && (offset >= 0 ==> LandsAt(old(fns.w), fd, offset)) ==> Faithful())
      ensures res < 0 ==> mods == old(mods)
      ensures res >= 0 && old(fns.w).nodes[fdMap[fd]].File? ==>
        mods == old(mods) + [WriteMod(fdMap[fd], StatOf(old(fns.w).nodes[fdMap[fd]]),
                                      StatOf(fns.w.nodes[fdMap[fd]]), offset, buf[..res])]
      ensures res >= 0 && old(fns.w).nodes[fdMap[fd]].File? && fns.w.nodes[fdMap[fd]].File? ==>
        var before, after := old(fns.w).nodes[fdMap[fd]], fns.w.nodes[fdMap[fd]];
        mods == old(mods) +
          [Mod(fdMap[fd], if |before.content| == |after.content| then Data else DataMetadata, NoneOpt,
               Stat(|after.content|, after.blocks, false), false, buf[..res], offset, res, [])]
      ensures res >= 0 && old(fns.w).nodes[fdMap[fd]].Dir? ==>
        mods == old(mods) + [Mod([], Create, NoneOpt, Stat(0, 0, false), true, [], 0, 0, [])]
    {
      hide Sound, ApplyLog, ApplyMod, TrackedMaps, Paths, View, SysPwrite, Stored, LandsAt;
      PwriteIsSound(fns.w, fd, buf, offset);
      var mod := EMPTY_MOD;
      mod := mod.(modOpts := NoneOpt);
      var statRes, preStat := fns.FnStat(fdMap[fd]);
      if statRes < 0 {
        return statRes;
      }
      var writeRes := fns.FnPwrite(fd, buf, offset);
      if writeRes < 0 {
        return writeRes;
      }
      mod := mod.(directoryMod := preStat.isDir);
      if !mod.directoryMod {
        mod := mod.(fileModLocation := offset);
        mod := mod.(fileModLen := writeRes);
        mod := mod.(path := fdMap[fd]);
        var postRes, postStat := fns.FnStat(fdMap[fd]);
        mod := mod.(postModStats := postStat);
        if postRes < 0 {
          return writeRes;
        }
        mod := mod.(modType := if preStat.size != postStat.size then DataMetadata else Data);
        if writeRes > 0 {
          mod := mod.(fileModData := buf[..writeRes]);
        }
        if LandsAt(old(fns.w), fd, offset) && fdMap[fd] == old(fns.w).fds[fd].path {
          StoreIsRecorded(old(fns.w), fd, buf, offset, preStat, postStat);
        }
      }
      Push(mod);
      return writeRes;
    }

    /** Maps that reach their file are remembered under their address. */
    method CmMmap(fd: int, length: nat, writable: bool, shared: bool, offset: nat) returns (res: int)
      requires Tracks()
      modifies this`mmapMap, fns
      ensures (fns.w, res) == SysMmap(old(fns.w), fd, length, writable, shared, offset)
      ensures res != -1 ==> fd in fdMap && res !in old(mmapMap)
      ensures mmapMap == if res == -1 || !writable || !shared then old(mmapMap)
                         else old(mmapMap)[res := Tracked(fdMap[fd], offset % TWO_32, length % TWO_32)]
      ensures Tracks() && (old(Valid()) ==> Valid()) && (old(Faithful()) ==> Faithful())
    {
      hide Sound, ApplyLog, TrackedMaps, View, SysMmap, Paths, Sane;
      MmapIsSound(fns.w, fd, length, writable, shared, offset);
      res := fns.FnMmap(fd, length, writable, shared, offset);
      if res == -1 {
        return;
      }
      if !writable || !shared {
        return;
      }
      if res !in mmapMap {
        mmapMap := mmapMap[res := Tracked(fdMap[fd], offset % TWO_32, length % TWO_32)];
      }
    }

    /**
     A sync inside a remembered mapping records one change, whatever order the mappings are
     searched in; elsewhere none. `memory` is what lies at `addr`.
     */
    method CmMsync(addr: int, length: nat, async: bool, memory: seq<byte>) returns (res: int)
      requires Tracks() && |memory| == length <= MAX_OFF
      modifies this`mods, fns
      ensures (fns.w, res) == SysMsync(old(fns.w), addr, length)
      ensures Tracks() && (old(Valid()) ==> Valid())
      ensures res < 0 || (forall a <- mmapMap :: !Inside(mmapMap, a, addr)) ==> mods == old(mods)
      ensures forall a | a in mmapMap && Inside(mmapMap, a, addr) && res >= 0 ::
        mods == old(mods) + [SyncMod(mmapMap[a], addr - a, async, memory)]
      ensures forall a | a in mmapMap && a <= addr < a + mmapMap[a].length && res >= 0 ::
        mods == old(mods) +
          [Mod(mmapMap[a].path, Data, if async then MsAsync else MsSync, Stat(0, 0, false), false, memory,
               mmapMap[a].offset + (addr - a), length, [])]
      ensures old(Faithful()) && Coherent(View(old(fns.w).nodes), mmapMap, addr, memory) ==> Faithful()
    {
      hide Sound, ApplyLog, ApplyMod, TrackedMaps, Paths, Coherent, View;
      res := fns.FnMsync(addr, length);
      SyncIsSound(old(fns.w));
      if res < 0 {
        return;
      }
      var todo := mmapMap.Keys;
      while todo != {}
        invariant todo <= mmapMap.Keys
        invariant mods == old(mods) && (fns.w, res) == SysMsync(old(fns.w), addr, length)
        invariant forall a <- mmapMap.Keys - todo :: !Inside(mmapMap, a, addr)
      {
        SomeMember(todo);
        var kv :| kv in todo;
        todo := todo - {kv};
        if addr >= kv && addr < kv + mmapMap[kv].length {
          var mod := EMPTY_MOD;
          mod := mod.(modType := Data);
          mod := mod.(modOpts := if async then MsAsync else MsSync);
          mod := mod.(path := mmapMap[kv].path);
          mod := mod.(fileModLocation := mmapMap[kv].offset + (addr - kv));
          mod := mod.(fileModLen := length);
          mod := mod.(fileModData := memory);
          MappingsApart(fns.w, mmapMap, kv, addr);
          ghost var files := View(old(fns.w).nodes);
          if ApplyLog(start, mods) == files && Coherent(files, mmapMap, addr, memory) {
            CoherentSync(start, mods, files, mmapMap, kv, addr, async, memory);
          }
          Push(mod);
          break;
        }
      }
    }

    method CmMunmap(addr: int, length: nat) returns (res: int)
      requires Tracks()
      modifies this`mmapMap, fns
      ensures (fns.w, res) == SysMunmap(old(fns.w), addr, length)
      ensures mmapMap == if res < 0 then old(mmapMap) else old(mmapMap) - {addr}
      ensures Tracks() && (old(Valid()) ==> Valid()) && (old(Faithful()) ==> Faithful())
    {
      res := fns.FnMunmap(addr, length);
      if res < 0 {
        return;
      }
      mmapMap := mmapMap - {addr};
    }

    /**
     On a descriptor it does not know the recorder fails without asking the kernel, and remembers
     an empty path for it. Otherwise the call goes through and is recorded as what the mode says,
     which is right but for inserted ranges.
     */
    method CmFallocate(fd: int, mode: FallocMode, offset: int, len: int) returns (res: int)
      requires Sound(fns.w) && (fd in fdMap ==> Tracks())
      modifies this`fdMap, this`mods, fns
      ensures fd !in old(fdMap) ==>
        res == -1 && fdMap == old(fdMap)[fd := []] && mods == old(mods) && fns.w == old(fns.w)
      ensures fd in old(fdMap) ==> Tracks() && (old(Valid()) ==> Valid()) && fdMap == old(fdMap)
      ensures fd in old(fdMap) && fdMap[fd] !in old(fns.w).nodes ==> res == -1 && fns.w == old(fns.w)
      ensures fd in old(fdMap) && fdMap[fd] in old(fns.w).nodes ==>
        && (fns.w, res) == SysFallocate(old(fns.w), fd, mode, offset, len)
        && (old(Faithful()) && fdMap[fd] == old(fns.w).fds[fd].path && old(fns.w).fds[fd].live && !mode.insert ==>
              Faithful())
        && mods == old(mods) + (if res < 0 then [] else
             [FallocateMod(fdMap[fd], StatOf(old(fns.w).nodes[fdMap[fd]]), StatOf(fns.w.nodes[fdMap[fd]]),
                           mode, offset, len)])
      ensures fd in old(fdMap) && fdMap[fd] in old(fns.w).nodes && res >= 0 ==>
        var before, after := old(fns.w).nodes[fdMap[fd]], fns.w.nodes[fdMap[fd]];
        mods == old(mods) +
          [Mod(fdMap[fd],
               if before.File? && after.File? && (|before.content| != |after.content| || before.blocks != after.blocks)
               then DataMetadata else Data,
               if mode.punchHole then PunchHoleKeepSize
               else if mode.collapse then CollapseRange
               else if mode.zero && mode.keepSize then ZeroRangeKeepSize
               else if mode.zero then ZeroRange
               else if mode.keepSize then FallocateKeepSize
               else Fallocate,
               Stat(0, 0, false), false, [], offset, len, [])]
    {
      hide ApplyLog, ApplyMod, TrackedMaps, Fallocated, RangeAllowed, Paths, Sound, View, FallocateMod, StatOf, Sane;
      FallocateIsSound(fns.w, fd, mode, offset, len);
      if fd !in fdMap {
        fdMap := fdMap[fd := []];
      }
      var preStatRes, preStat := fns.FnStat(fdMap[fd]);
      if preStatRes < 0 {
        return preStatRes;
      }
      res := fns.FnFallocate(fd, mode, offset, len);
      if res < 0 {
        return;
      }
      var postStatRes, postStat := fns.FnStat(fdMap[fd]);
      if postStatRes < 0 {
        return postStatRes;
      }
      var mod := FallocateChange(fdMap[fd], preStat, postStat, mode, offset, len);
      FallocateModIs(fdMap[fd], old(fns.w).nodes[fdMap[fd]], fns.w.nodes[fdMap[fd]], mode, offset, len);
      if fdMap[fd] == old(fns.w).fds[fd].path && old(fns.w).fds[fd].live && !mode.insert {
        FallocateIsRecorded(old(fns.w), fd, mode, offset, len);
      }
      Push(mod);
    }

    /** The change CmFallocate fills in, its options chosen by the bits of the mode in order. */
    method FallocateChange(path: Path, preStat: Stat, postStat: Stat, mode: FallocMode, offset: nat, len: nat)
      returns (mod: Mod)
      requires ValidMode(mode)
      ensures mod == FallocateMod(path, preStat, postStat, mode, offset, len)
      ensures mod.modType ==
        if preStat.size == postStat.size && preStat.blocks == postStat.blocks then Data else DataMetadata
      ensures mode.punchHole ==> mod.modOpts == PunchHoleKeepSize
      ensures mode.collapse && !mode.punchHole ==> mod.modOpts == CollapseRange
      ensures mode.zero && !mode.punchHole && !mode.collapse ==>
        mod.modOpts == if mode.keepSize then ZeroRangeKeepSize else ZeroRange
      ensures !mode.punchHole && !mode.collapse && !mode.zero ==>
        mod.modOpts == if mode.keepSize then FallocateKeepSize else Fallocate
    {
      mod := EMPTY_MOD;
      if preStat.size != postStat.size || preStat.blocks != postStat.blocks {
        mod := mod.(modType := DataMetadata);
      } else {
        mod := mod.(modType := Data);
      }
      mod := mod.(path := path);
      mod := mod.(fileModLocation := offset);
      mod := mod.(fileModLen := len);
      if mode.punchHole {
        assert mode.keepSize;
        mod := mod.(modOpts := PunchHoleKeepSize);
      } else if mode.collapse {
        mod := mod.(modOpts := CollapseRange);
      } else if mode.zero {
        if mode.keepSize {
          mod := mod.(modOpts := ZeroRangeKeepSize);
        } else {
          mod := mod.(modOpts := ZeroRange);
        }
      } else if mode.keepSize {
        mod := mod.(modOpts := FallocateKeepSize);
      } else {
        mod := mod.(modOpts := Fallocate);
      }
    }

    method CmClose(fd: int) returns (res: int)
      requires Tracks()
      modifies this`fdMap, fns
      ensures (fns.w, res) == SysClose(old(fns.w), fd)
      ensures fdMap == if res < 0 then old(fdMap) else old(fdMap) - {fd}
      ensures Tracks() && (old(Valid()) ==> Valid()) && (old(Faithful()) ==> Faithful())
    {
      res := fns.FnClose(fd);
      if res < 0 {
        return;
      }
      fdMap := fdMap - {fd};
    }

    /**
     The paths of the open descriptors are rewritten before the kernel is asked. If they were right, they
     are so afterwards if and only if, on success, the old path occurs in none of them except as a whole
     or as a leading directory, and, on failure, in none of them at all.
     */
    method CmRename(oldPath: Path, newPath: Path) returns (res: int)
      requires Tracks()
      modifies this`fdMap, fns
      ensures (fns.w, res) == SysRename(old(fns.w), oldPath, newPath)
      ensures Tracks() && fdMap == RenamedPaths(old(fdMap), oldPath, newPath)
      ensures fdMap.Keys == old(fdMap).Keys
      ensures forall fd <- fdMap :: fdMap[fd] == RenamedOpenPath(old(fdMap)[fd], oldPath, newPath)
      ensures old(Valid()) && res == 0 ==>
        (Valid() <==> forall fd <- old(fdMap) :: RenameSafe(old(fdMap)[fd], oldPath, newPath))
      ensures old(Valid()) && res != 0 ==>
        (Valid() <==> oldPath == newPath || forall fd, i | fd in old(fdMap) :: !OccursAt(old(fdMap)[fd], oldPath, i))
      ensures old(Faithful()) ==> (Faithful() <==> res != 0 || oldPath == newPath)
    {
      hide Sound, Paths, TrackedMaps, ApplyLog, View, SysRename, RenameSafe, Find, Sane, RenamedOpenPath;
      var todo := fdMap.Keys;
      ghost var before := fdMap;
      while todo != {}
        invariant todo <= fdMap.Keys == before.Keys && fns.w == old(fns.w)
        invariant forall fd <- before ::
          fdMap[fd] == if fd in todo then before[fd] else RenamedOpenPath(before[fd], oldPath, newPath)
      {
        SomeMember(todo);
        var it :| it in todo;
        todo := todo - {it};
        var openFdOldPath := fdMap[it];
        RenamedCases(openFdOldPath, oldPath, newPath);
        if openFdOldPath == oldPath {
          fdMap := fdMap[it := newPath];
          continue;
        }
        var found := Find(openFdOldPath, oldPath);
        if found.Some? {
          fdMap := fdMap[it := openFdOldPath[..found.value] + newPath + openFdOldPath[found.value + |oldPath|..]];
        }
      }
      res := fns.FnRename(oldPath, newPath);
      SamePathMaps(fdMap, RenamedPaths(before, oldPath, newPath));
      SoundAfterRename(old(fns.w), oldPath, newPath);
      PathsFollowRename(old(fns.w), oldPath, newPath);
      if old(Valid()) {
        PathsAfterRename(old(fns.w), before, fdMap, oldPath, newPath);
      }
      RenameChangesFiles(old(fns.w), oldPath, newPath);
    }

    method CmUnlink(path: Path) returns (res: int)
      requires Tracks()
      modifies this`mods, fns
      ensures (fns.w, res) == SysUnlink(old(fns.w), path)
      ensures Tracks() && (old(Valid()) ==> Valid()) && (old(Faithful()) ==> Faithful())
      ensures mods == old(mods) +
        if res < 0 then [] else [Mod(path, Remove, NoneOpt, Stat(0, 0, false), false, [], 0, 0, [])]
    {
      hide Sound, ApplyLog, SysUnlink, TrackedMaps, Paths, View;
      UnlinkIsSound(fns.w, path);
      res := fns.FnUnlink(path);
      if res < 0 {
        return;
      }
      var mod := EMPTY_MOD;
      mod := mod.(modType := Remove);
      mod := mod.(modOpts := NoneOpt);
      mod := mod.(path := path);
      Push(mod);
    }

    method CmRemove(path: Path) returns (res: int)
      requires Tracks()
      modifies this`mods, fns
      ensures (fns.w, res) == SysRemove(old(fns.w), path)
      ensures Tracks() && (old(Valid()) ==> Valid()) && (old(Faithful()) ==> Faithful())
      ensures mods == old(mods) +
        if res < 0 then [] else [Mod(path, Remove, NoneOpt, Stat(0, 0, false), false, [], 0, 0, [])]
    {
      hide Sound, ApplyLog, SysRemove, TrackedMaps, Paths, View;
      RemoveIsSound(fns.w, path);
      res := fns.FnRemove(path);
      if res < 0 {
        return;
      }
      var mod := EMPTY_MOD;
      mod := mod.(modType := Remove);
      mod := mod.(modOpts := NoneOpt);
      mod := mod.(path := path);
      Push(mod);
    }

    /** CmFsync and CmFdatasync. */
    method CmFsync(fd: int) returns (res: int)
      requires Tracks()
      modifies this`mods, fns
      ensures (fns.w, res) == SysFlush(old(fns.w), fd) && (res >= 0 ==> fd in fdMap)
      ensures Tracks() && (old(Valid()) ==> Valid()) && (old(Faithful()) ==> Faithful())
      ensures mods == old(mods) +
        if res < 0 then [] else [Mod(fdMap[fd], Fsync, NoneOpt, Stat(0, 0, false), false, [], 0, 0, [])]
    {
      res := fns.FnFlush(fd);
      if res < 0 {
        return;
      }
      var mod := EMPTY_MOD;
      mod := mod.(modType := Fsync);
      mod := mod.(modOpts := NoneOpt);
      mod := mod.(path := fdMap[fd]);
      Push(mod);
    }

    method CmSync()
      requires Tracks()
      modifies this`mods
      ensures Tracks() && (old(Valid()) ==> Valid()) && (old(Faithful()) ==> Faithful())
      ensures mods == old(mods) + [Mod([], Sync, NoneOpt, Stat(0, 0, false), false, [], 0, 0, [])]
    {
      var mod := EMPTY_MOD;
      mod := mod.(modType := Sync);
      mod := mod.(modOpts := NoneOpt);
      Push(mod);
    }

    /** A range whose recorded path is gone is synced, but the caller is told it was not. */
    method CmSyncFileRange(fd: int, offset: nat, nbytes: nat) returns (res: int)
      requires Tracks() && offset <= MAX_OFF && nbytes <= MAX_OFF
      modifies this`mods, fns
      ensures fns.w == SysFlush(old(fns.w), fd).0
      ensures res == if fd in fdMap && fdMap[fd] in fns.w.nodes then SysFlush(old(fns.w), fd).1 else -1
      ensures Tracks() && (old(Valid()) ==> Valid()) && (old(Faithful()) ==> Faithful())
      ensures mods == old(mods) + if res < 0 then [] else
        [Mod(fdMap[fd], SyncFileRange, NoneOpt, StatOf(fns.w.nodes[fdMap[fd]]), false, [], offset, nbytes, [])]
    {
      hide Sound, ApplyLog, TrackedMaps, View, SysFlush, Paths;
      FlushIsSound(fns.w, fd);
      res := fns.FnFlush(fd);
      if res < 0 {
        return;
      }
      var mod := EMPTY_MOD;
      mod := mod.(modType := SyncFileRange);
      mod := mod.(modOpts := NoneOpt);
      mod := mod.(path := fdMap[fd]);
      var postStatRes, postModStats := fns.FnStat(fdMap[fd]);
      mod := mod.(postModStats := postModStats);
      if postStatRes < 0 {
        return postStatRes;
      }
      mod := mod.(fileModLocation := offset);
      mod := mod.(fileModLen := nbytes);
      Push(mod);
    }

    method CmCheckpoint() returns (res: int)
      requires Tracks()
      modifies this`mods
      ensures res == 1 && Tracks() && (old(Valid()) ==> Valid()) && (old(Faithful()) ==> Faithful())
      ensures mods == old(mods) + [Mod([], Checkpoint, NoneOpt, Stat(0, 0, false), false, [], 0, 0, [])]
    {
      res := fns.CmCheckpoint();
      if res < 0 {
        return;
      }
      var mod := EMPTY_MOD;
      mod := mod.(modType := Checkpoint);
      mod := mod.(modOpts := NoneOpt);
      Push(mod);
    }

    /** The log goes out in full up to the first removal, which overruns a buffer, or change too long. */
    method Serialize(fd: Posix.File) returns (res: int, overrun: bool)
      requires Tracks() && fd.pos == |fd.content|
      requires forall m <- mods :: NulFree(m.path) && |m.path| + 2 < TWO_31
      modifies fd`content, fd`pos, fd`stalls
      ensures (res == 0 && !overrun) || res == -1
      ensures res == 0 ==> fd.content == old(fd.content) + ChangeLog.Stream(mods)
      ensures old(fd.content) <= fd.content <= old(fd.content) + ChangeLog.Stream(mods)
      ensures res == 0 ==> forall m <- mods :: ChangeLog.Writable(m)
      ensures !fd.faulty && res != 0 ==>
        exists i | 0 <= i < |mods| ::
          && !ChangeLog.Writable(mods[i]) && (forall j | 0 <= j < i :: ChangeLog.Writable(mods[j]))
          && (overrun <==> mods[i].modType == Remove)
    {
      forall m | m in mods
        ensures ChangeLog.Loggable(m)
      {
        SaneIsLoggable(m);
      }
      res, overrun := ChangeLog.SerializeAll(fd, mods);
    }
  }

  /** `addr` lies in the mapping remembered at `a`. */
  predicate Inside(maps: map<int, Tracked>, a: int, addr: int)
    requires a in maps
  {
    a <= addr < a + maps[a].length
  }

  function SyncMod(t: Tracked, distance: int, async: bool, memory: seq<byte>): Mod
    requires distance >= 0
  {
    EMPTY_MOD.(modType := Data, modOpts := if async then MsAsync else MsSync, path := t.path,
               fileModLocation := t.offset + distance, fileModLen := |memory|, fileModData := memory)
  }

  function FallocateMod(path: Path, pre: Stat, post: Stat, mode: FallocMode, offset: nat, len: nat): Mod {
    EMPTY_MOD.(path := path, modOpts := OptsOfMode(mode), fileModLocation := offset, fileModLen := len,
               modType := if pre.size != post.size || pre.blocks != post.blocks then DataMetadata else Data)
  }

  lemma FallocateModIs(path: Path, before: Node, after: Node, mode: FallocMode, offset: nat, len: nat)
    requires before.Dir? == after.Dir?
    ensures FallocateMod(path, StatOf(before), StatOf(after), mode, offset, len) ==
        Mod(path,
            if before.File? && after.File? && (|before.content| != |after.content| || before.blocks != after.blocks)
            then DataMetadata else Data,
            if mode.punchHole then PunchHoleKeepSize
            else if mode.collapse then CollapseRange
            else if mode.zero && mode.keepSize then ZeroRangeKeepSize
            else if mode.zero then ZeroRange
            else if mode.keepSize then FallocateKeepSize
            else Fallocate,
            Stat(0, 0, false), false, [], offset, len, [])
    ensures var mod := FallocateMod(path, StatOf(before), StatOf(after), mode, offset, len);
      offset <= MAX_OFF && len <= MAX_OFF ==> Sane(mod)
  {
  }

  /** Synced memory a regular file holds where the recorder says; what is no such file is not written to. */
  predicate HeldAt(files: Files, t: Tracked, distance: nat, memory: seq<byte>) {
    var at := t.offset + distance;
    || t.path !in files || files[t.path].None? || memory == []
    || (at + |memory| <= |files[t.path].value| && files[t.path].value[at..at + |memory|] == memory)
  }

  /** The synced memory is what the file holds there, as it is for a shared mapping within the file. */
  predicate Coherent(files: Files, maps: map<int, Tracked>, addr: int, memory: seq<byte>) {
    forall a <- maps :: Inside(maps, a, addr) ==> HeldAt(files, maps[a], addr - a, memory)
  }

  /** The record of a sync says nothing wrong of the files if and only if the memory is what they hold. */
  lemma SyncRecordExact(files: Files, t: Tracked, distance: nat, async: bool, memory: seq<byte>)
    ensures ApplyMod(files, SyncMod(t, distance, async, memory)) == files <==> HeldAt(files, t, distance, memory)
  {
    var at := t.offset + distance;
    if t.path in files && files[t.path].Some? {
      var content := files[t.path].value;
      var synced := Splice(content, at, memory);
      assert ApplyMod(files, SyncMod(t, distance, async, memory)) == files[t.path := Some(synced)];
      SpliceIdle(content, at, memory);
      if synced == content {
        assert files[t.path := Some(content)] == files;
      } else {
        assert files[t.path := Some(synced)][t.path] != files[t.path];
      }
    }
  }

  lemma SpliceIdle(content: seq<byte>, at: nat, data: seq<byte>)
    ensures Splice(content, at, data) == content
       <==> data == [] || (at + |data| <= |content| && content[at..at + |data|] == data)
  {
    var after := Splice(content, at, data);
    if after == content && data != [] {
      assert forall i | 0 <= i < |data| :: content[at + i] == after[at + i] == data[i];
    }
    if at + |data| <= |content| && content[at..at + |data|] == data {
      var held := content[at..at + |data|];
      assert forall i | 0 <= i < |data| :: held[i] == content[at + i];
      assert forall i | at <= i < at + |data| :: after[i] == data[i - at] == content[i];
    }
  }

  /**
   Stores through a mapping escape the log until they are synced: if the log is right but for the
   bytes of one file in the synced range, the recorded sync makes it right altogether.
   */
  lemma SyncCatchesUp(start: Files, mods: seq<Mod>, files: Files, t: Tracked, distance: nat, async: bool,
                      memory: seq<byte>, logged: seq<byte>)
    requires t.path in files && files[t.path].Some?
    requires ApplyLog(start, mods) == files[t.path := Some(logged)]
    requires var c := files[t.path].value; var at := t.offset + distance;
      && |logged| == |c| && at + |memory| <= |c| && c[at..at + |memory|] == memory
      && forall i :: 0 <= i < |c| && !(at <= i < at + |memory|) ==> c[i] == logged[i]
    ensures ApplyLog(start, mods + [SyncMod(t, distance, async, memory)]) == files
  {
    hide ApplyLog, Splice;
    var mod := SyncMod(t, distance, async, memory);
    ApplyLogAppend(start, mods, mod);
    SyncedRangeCatchesUp(files[t.path].value, logged, t.offset + distance, |memory|);
  }

  lemma CoherentSync(start: Files, mods: seq<Mod>, files: Files, maps: map<int, Tracked>, a: int, addr: int,
                     async: bool, memory: seq<byte>)
    requires ApplyLog(start, mods) == files && Coherent(files, maps, addr, memory)
    requires a in maps && Inside(maps, a, addr)
    ensures ApplyLog(start, mods + [SyncMod(maps[a], addr - a, async, memory)]) == files
  {
    hide ApplyLog, ApplyMod, HeldAt;
    SyncRecordExact(files, maps[a], addr - a, async, memory);
    ApplyLogAppend(start, mods, SyncMod(maps[a], addr - a, async, memory));
  }

  /**
   The recorder keeps 32 bits of a mapping's offset and length. It finds the mapping from every
   address inside, and computes the true file position there, if and only if both fit.
   */
  lemma MappingNumbersExact(maps: map<int, Mapping>, a: int)
    requires a in maps && maps[a].tracked && maps[a].length > 0
    ensures (forall addr | a <= addr < a + maps[a].length :: FoundAndPlaced(maps, a, addr))
       <==> maps[a].offset < TWO_32 && maps[a].length < TWO_32
  {
    if maps[a].length >= TWO_32 {
      assert !FoundAndPlaced(maps, a, a + maps[a].length - 1);
    } else if maps[a].offset >= TWO_32 {
      assert !FoundAndPlaced(maps, a, a);
    }
  }

  predicate FoundAndPlaced(maps: map<int, Mapping>, a: int, addr: int)
    requires a in maps && maps[a].tracked
  {
    var t := TrackedMaps(maps)[a];
    a <= addr < a + t.length && t.offset + (addr - a) == maps[a].offset + (addr - a)
  }

  lemma MmapIsSound(w: World, fd: int, length: nat, writable: bool, shared: bool, offset: nat)
    requires Sound(w)
    ensures var (after, a) := SysMmap(w, fd, length, writable, shared, offset);
      && Sound(after) && after.nodes == w.nodes && after.fds == w.fds
      && (a == -1 ==> after.maps == w.maps)
      && (a != -1 ==> fd in w.fds && fd in Paths(w.fds) && a !in TrackedMaps(w.maps))
      && (a != -1 && !(writable && shared) ==> TrackedMaps(after.maps) == TrackedMaps(w.maps))
      && (a != -1 && writable && shared ==>
            TrackedMaps(after.maps) ==
            TrackedMaps(w.maps)[a := Tracked(Paths(w.fds)[fd], offset % TWO_32, length % TWO_32)])
  {
    hide TrackedMaps;
    MmapKeepsSound(w, fd, length, writable, shared, offset);
    if w.freeAddress !in w.maps && fd in w.fds {
      var f := w.fds[fd];
      var m := Mapping(f.path, offset, length, writable && shared, if f.live then Some(f.path) else None);
      TrackedInsert(w.maps, w.freeAddress, m);
    }
  }

  lemma MmapKeepsSound(w: World, fd: int, length: nat, writable: bool, shared: bool, offset: nat)
    requires Sound(w)
    ensures Sound(SysMmap(w, fd, length, writable, shared, offset).0)
    ensures w.freeAddress !in w.maps
  {
  }

  lemma TrackedInsert(maps: map<int, Mapping>, a: int, m: Mapping)
    requires a !in maps
    ensures a !in TrackedMaps(maps)
    ensures TrackedMaps(maps[a := m]) ==
      if m.tracked then TrackedMaps(maps)[a := Tracked(m.path, m.offset % TWO_32, m.length % TWO_32)]
      else TrackedMaps(maps)
  {
    var after := TrackedMaps(maps[a := m]);
    if m.tracked {
      assert after == TrackedMaps(maps)[a := Tracked(m.path, m.offset % TWO_32, m.length % TWO_32)];
    } else {
      assert after == TrackedMaps(maps);
    }
  }

  lemma FlushIsSound(w: World, fd: int)
    requires Sound(w)
    ensures var (after, r) := SysFlush(w, fd);
      && Sound(after) && after.nodes == w.nodes && after.fds == w.fds && after.maps == w.maps
      && (r >= 0 ==> r == 0 && fd in Paths(w.fds)) && r >= -1
  {
  }

  lemma SyncIsSound(w: World)
    requires Sound(w)
    ensures Sound(w.Advanced())
  {
  }

  /** Remembered mappings do not overlap, so at most one holds an address. */
  lemma MappingsApart(w: World, maps: map<int, Tracked>, a: int, addr: int)
    requires Sound(w) && SameRanges(maps, TrackedMaps(w.maps)) && a in maps && Inside(maps, a, addr)
    ensures forall b <- maps :: Inside(maps, b, addr) ==> b == a
  {
  }

  lemma FallocateIsSound(w: World, fd: int, mode: FallocMode, offset: int, len: int)
    requires Sound(w)
    ensures [] !in w.nodes
    ensures var (after, r) := SysFallocate(w, fd, mode, offset, len);
      && Sound(after) && Paths(after.fds) == Paths(w.fds) && after.maps == w.maps
  {
    hide Fallocated, RangeAllowed;
  }

  lemma FallocateIsRecorded(w: World, fd: int, mode: FallocMode, offset: int, len: int)
    requires fd in w.fds && w.fds[fd].live && w.fds[fd].path in w.nodes && !mode.insert
    requires SysFallocate(w, fd, mode, offset, len).1 >= 0
    ensures var after := SysFallocate(w, fd, mode, offset, len).0;
      forall pre, post ::
        View(after.nodes) == ApplyMod(View(w.nodes), FallocateMod(w.fds[fd].path, pre, post, mode, offset, len))
  {
    var path := w.fds[fd].path;
    var after := SysFallocate(w, fd, mode, offset, len).0;
    FallocateOptsExact(mode);
    ViewUpdate(w.nodes, path, after.nodes[path]);
  }

  lemma PathsAfterRename(w: World, before: map<int, Path>, after: map<int, Path>, o: Path, n: Path)
    requires Sound(w) && before == Paths(w.fds) && after.Keys == before.Keys
    requires forall fd <- before :: after[fd] == RenamedOpenPath(before[fd], o, n)
    ensures Sound(SysRename(w, o, n).0) && TrackedMaps(SysRename(w, o, n).0.maps) == TrackedMaps(w.maps)
    ensures SysRename(w, o, n).1 == 0 ==>
      (after == Paths(SysRename(w, o, n).0.fds) <==> forall fd <- before :: RenameSafe(before[fd], o, n))
    ensures SysRename(w, o, n).1 != 0 ==> SysRename(w, o, n).0.fds == w.fds
    ensures SysRename(w, o, n).1 != 0 ==>
      (after == Paths(w.fds) <==> o == n || forall fd, i | fd in before :: !OccursAt(before[fd], o, i))
  {
    hide RenamedOpenPath, RenameSafe, OccursAt, Sound, RenameAllowed, Moved, MovedNodes, SysRename;
    SoundAfterRename(w, o, n);
    PathsFollowRename(w, o, n);
    forall fd | fd in before
      ensures o != [] ==> (after[fd] == Moved(before[fd], o, n) <==> RenameSafe(before[fd], o, n))
      ensures after[fd] == before[fd] <==> o == n || forall i :: !OccursAt(before[fd], o, i)
    {
      if o != [] {
        RenameExact(before[fd], o, n);
      }
      RenameIdle(before[fd], o, n);
    }
    SamePathMaps(after, Paths(SysRename(w, o, n).0.fds));
    SamePathMaps(after, before);
  }

  lemma SamePathMaps(a: map<int, Path>, b: map<int, Path>)
    requires a.Keys == b.Keys
    ensures a == b <==> forall fd <- a :: a[fd] == b[fd]
  {
    if forall fd <- a :: a[fd] == b[fd] {
      assert a == b;
    }
  }

  lemma SoundAfterRename(w: World, o: Path, n: Path)
    requires Sound(w)
    ensures Sound(SysRename(w, o, n).0) && TrackedMaps(SysRename(w, o, n).0.maps) == TrackedMaps(w.maps)
    ensures SysRename(w, o, n).1 == 0 ==> o != []
  {
    hide TrackedMaps, MovedMaps, Moved, MovedNodes;
    MapsAfterRename(w.maps, o, n);
    if RenameAllowed(w, o, n) && o != n {
      NodesAfterRename(w, o, n);
    }
  }

  lemma NodesAfterRename(w: World, o: Path, n: Path)
    requires [] !in w.nodes && RenameAllowed(w, o, n) && o != n
    ensures [] !in MovedNodes(w.nodes, o, n)
    ensures forall p <- w.nodes :: p != n ==> Moved(p, o, n) in MovedNodes(w.nodes, o, n)
  {
    hide MovedNodes;
    RenameMovesAll(w, o, n);
  }

  lemma MapsAfterRename(maps: map<int, Mapping>, o: Path, n: Path)
    ensures var after := MovedMaps(maps, o, n);
      && after.Keys == maps.Keys && (forall a <- maps :: after[a].length == maps[a].length)
      && TrackedMaps(after) == TrackedMaps(maps)
  {
    hide TrackedMaps, Moved;
    SameTracked(maps, MovedMaps(maps, o, n));
  }

  lemma PathsFollowRename(w: World, o: Path, n: Path)
    ensures SysRename(w, o, n).1 == 0 ==>
      SysRename(w, o, n).0.fds.Keys == w.fds.Keys &&
      forall fd <- w.fds :: SysRename(w, o, n).0.fds[fd].path == Moved(w.fds[fd].path, o, n)
    ensures SysRename(w, o, n).1 != 0 ==> SysRename(w, o, n).0.fds == w.fds
  {
    hide RenameAllowed, MovedNodes;
  }

  lemma UnlinkIsSound(w: World, path: Path)
    requires Sound(w)
    ensures var (after, r) := SysUnlink(w, path);
      && Sound(after) && Paths(after.fds) == Paths(w.fds) && TrackedMaps(after.maps) == TrackedMaps(w.maps)
      && View(after.nodes) == if r < 0 then View(w.nodes) else View(w.nodes) - {path}
  {
    ViewRemove(w.nodes, path);
    DetachedIsSound(w, path);
  }

  lemma RemoveIsSound(w: World, path: Path)
    requires Sound(w)
    ensures var (after, r) := SysRemove(w, path);
      && Sound(after) && Paths(after.fds) == Paths(w.fds) && TrackedMaps(after.maps) == TrackedMaps(w.maps)
      && View(after.nodes) == if r < 0 then View(w.nodes) else View(w.nodes) - {path}
  {
    hide SysUnlink;
    UnlinkIsSound(w, path);
    ViewRemove(w.nodes, path);
    DetachedIsSound(w, path);
  }

  lemma DetachedIsSound(w: World, path: Path)
    requires Sound(w)
    ensures Sound(w.Advanced().(nodes := w.nodes - {path}, fds := Detached(w.fds, path),
                                maps := Orphaned(w.maps, path)))
    ensures Paths(Detached(w.fds, path)) == Paths(w.fds)
    ensures TrackedMaps(Orphaned(w.maps, path)) == TrackedMaps(w.maps)
  {
    hide TrackedMaps;
    SameTracked(w.maps, Orphaned(w.maps, path));
  }

  lemma RenameChangesFiles(w: World, o: Path, n: Path)
    ensures View(SysRename(w, o, n).0.nodes) == View(w.nodes) <==> SysRename(w, o, n).1 != 0 || o == n
  {
    var after := SysRename(w, o, n).0;
    if RenameAllowed(w, o, n) && o != n {
      RenameMovesAll(w, o, n);
      assert o in View(w.nodes) && o !in View(after.nodes);
    }
  }

  lemma OpenIsSound(w: World, path: Path, flags: Flags)
    requires Sound(w)
    ensures var (after, fd) := SysOpen(w, path, flags);
      && Sound(after) && after.maps == w.maps
      && (fd < 0 ==> after.fds == w.fds && after.nodes == w.nodes)
      && (fd >= 0 ==>
            && fd !in w.fds && path in after.nodes && Paths(after.fds) == Paths(w.fds)[fd := path]
            && after.nodes == (if path in w.nodes && !flags.trunc then w.nodes else w.nodes[path := File([], 0)]))
  {
    hide LowestFree;
    OpenKeepsSound(w, path, flags);
  }

  lemma OpenKeepsSound(w: World, path: Path, flags: Flags)
    requires Sound(w)
    ensures Sound(SysOpen(w, path, flags).0)
  {
    hide LowestFree;
  }

  lemma OpenIsRecorded(w: World, path: Path, flags: Flags, start: Files, mods: seq<Mod>)
    requires Sound(w) && SysOpen(w, path, flags).1 >= 0
    requires ApplyLog(start, mods) == View(w.nodes)
    ensures var after := SysOpen(w, path, flags).0;
      && path in after.nodes
      && ApplyLog(start, mods + OpenMods(path, path in w.nodes, flags, after.nodes[path])) == View(after.nodes)
  {
    hide Sound, ApplyLog, SysOpen;
    OpenIsSound(w, path, flags);
    var after := SysOpen(w, path, flags).0;
    if path !in w.nodes || flags.trunc {
      ViewUpdate(w.nodes, path, File([], 0));
      var mod := OpenMods(path, path in w.nodes, flags, after.nodes[path])[0];
      ApplyLogAppend(start, mods, mod);
      TruncatesOnlyFiles(w, path, flags);
    } else {
      assert mods + [] == mods;
    }
  }

  lemma TruncatesOnlyFiles(w: World, path: Path, flags: Flags)
    requires SysOpen(w, path, flags).1 >= 0
    ensures path in w.nodes && flags.trunc ==> w.nodes[path].File?
  {
  }

  /** A file that was created or truncated is empty and no directory. */
  lemma OpenModsAre(w: World, path: Path, flags: Flags)
    requires SysOpen(w, path, flags).1 >= 0
    ensures var node := SysOpen(w, path, flags).0.nodes;
      path in node && OpenMods(path, path in w.nodes, flags, node[path]) ==
        if path !in w.nodes then [Mod(path, Create, NoneOpt, Stat(0, 0, false), false, [], 0, 0, [])]
        else if flags.trunc then [Mod(path, DataMetadata, Truncate, Stat(0, 0, false), false, [], 0, 0, [])]
        else []
  {
    hide LowestFree;
  }

  /** What opening a path adds to the log. */
  function OpenMods(path: Path, existed: bool, flags: Flags, node: Node): seq<Mod> {
    var mod := EMPTY_MOD.(path := path, postModStats := StatOf(node), directoryMod := node.Dir?);
    if !existed then [mod]
    else if flags.trunc then [mod.(modType := DataMetadata, modOpts := Truncate)]
    else []
  }
}
