/**
 The file system behind FsFns: files, directories, descriptors and shared mappings. Calls are
 functions of the state, whose `fate` settles beforehand what the kernel is free to choose, so
 that the same run can be made twice.
 */
module Kernel {
  import opened Bytes
  import opened DiskMods

  type Path = seq<byte>

  const SLASH: byte := 47
  const MAX_OFF: int := 0x7fff_ffff_ffff_ffff

  datatype Node = File(content: seq<byte>, blocks: nat) | Dir

  /** An open file; it is not `live` once its path was unlinked or replaced. */
  datatype OpenFile = OpenFile(path: Path, pos: nat, append: bool, live: bool)

  /**
   A mapping with the path its file had when mapped, and the one it has now, unless it was unlinked or
   replaced; `tracked` if stores to it reach that file.
   */
  datatype Mapping = Mapping(path: Path, offset: nat, length: nat, tracked: bool, file: Option<Path>)

  /** Negative: the call fails. Otherwise a bound on the bytes a write moves, and disk usage after it. */
  datatype Fate = Fate(res: int, blocks: nat)

  datatype World = World(nodes: map<Path, Node>, fds: map<int, OpenFile>, maps: map<int, Mapping>,
                         freeAddress: int, fate: seq<Fate>) {
    function Next(): Fate {
      if fate == [] then Fate(MAX_RW_COUNT, 0) else fate[0]
    }

    function Advanced(): World {
      this.(fate := if fate == [] then [] else fate[1..])
    }
  }

  ghost predicate Sound(w: World) {
    && [] !in w.nodes && w.freeAddress >= 0
    && (forall fd <- w.fds :: fd >= 0 && w.fds[fd].pos <= MAX_OFF)
    && (forall fd <- w.fds :: w.fds[fd].live ==> w.fds[fd].path in w.nodes)
    && (forall a <- w.maps :: 0 <= a && w.maps[a].length > 0 && a + w.maps[a].length <= w.freeAddress)
    && (forall a, b | a in w.maps && b in w.maps && a < b :: a + w.maps[a].length <= b)
  }

  /** The contents of the files; None is a directory. */
  type Files = map<Path, Option<seq<byte>>>

  function ViewNode(n: Node): Option<seq<byte>> {
    match n
    case File(content, _) => Some(content)
    case Dir => None
  }

  function View(nodes: map<Path, Node>): Files {
    map p | p in nodes :: ViewNode(nodes[p])
  }

  lemma ViewUpdate(nodes: map<Path, Node>, p: Path, n: Node)
    ensures View(nodes[p := n]) == View(nodes)[p := ViewNode(n)]
  {
  }

  lemma ViewRemove(nodes: map<Path, Node>, p: Path)
    ensures View(nodes - {p}) == View(nodes) - {p}
  {
  }

  // ------------------------------------------------------- calls that only look

  function StatOf(n: Node): Stat {
    match n
    case File(content, blocks) => Stat(|content|, blocks, false)
    case Dir => Stat(0, 0, true)
  }

  function SysStat(w: World, path: Path): Option<Stat> {
    if path in w.nodes then Some(StatOf(w.nodes[path])) else None
  }

  // -------------------------------------------------------------- descriptors

  datatype Flags = Flags(create: bool, trunc: bool, append: bool)

  /** The lowest number from `n` on that is not taken. */
  function LowestFree(taken: set<int>, n: int): (fd: int)
    ensures fd >= n && fd !in taken
    decreases |taken|
  {
    if n in taken then
      var fd := LowestFree(taken - {n}, n + 1);
      fd
    else n
  }

  function SysOpen(w: World, path: Path, flags: Flags): (World, int) {
    var next := w.Advanced();
    if w.Next().res < 0 || path == [] then (next, -1)
    else
      var fd := LowestFree(w.fds.Keys, 3);
      var granted := next.(fds := w.fds[fd := OpenFile(path, 0, flags.append, true)]);
      if path !in w.nodes then
        if flags.create then (granted.(nodes := w.nodes[path := File([], 0)]), fd) else (next, -1)
      else if w.nodes[path].Dir? then
        if flags.create || flags.trunc || flags.append then (next, -1) else (granted, fd)
      else if flags.trunc then (granted.(nodes := w.nodes[path := File([], 0)]), fd)
      else (granted, fd)
  }

  datatype Whence = SeekSet | SeekCur | SeekEnd

  function SysLseek(w: World, fd: int, offset: int, whence: Whence): (World, int) {
    if fd !in w.fds then (w, -1)
    else
      var f := w.fds[fd];
      var size := if f.live && f.path in w.nodes && w.nodes[f.path].File? then |w.nodes[f.path].content| else 0;
      var pos := match whence
        case SeekSet => offset
        case SeekCur => f.pos + offset
        case SeekEnd => size + offset;
      if 0 <= pos <= MAX_OFF then (w.(fds := w.fds[fd := f.(pos := pos)]), pos) else (w, -1)
  }

  /** Where a write lands: O_APPEND overrides the position. */
  function WriteOffset(w: World, f: OpenFile, at: nat): nat {
    if f.append && f.live && f.path in w.nodes && w.nodes[f.path].File? then |w.nodes[f.path].content| else at
  }

  /** The effect of a write of at most `buf` on the file of `fd`; -1 leaves everything as it is. */
  function Stored(w: World, fd: int, buf: seq<byte>, at: nat): (World, int)
    requires fd in w.fds
  {
    var f := w.fds[fd];
    var n := Min(w.Next().res, Min(|buf|, MAX_RW_COUNT));
    var next := w.Advanced();
    if n < 0 || WriteOffset(w, f, at) + n > MAX_OFF then (next, -1)
    else if !f.live || f.path !in w.nodes then (next, n)
    else match w.nodes[f.path]
      case Dir => (next, -1)
      case File(content, _) =>
        var after := Splice(content, WriteOffset(w, f, at), buf[..n]);
        (next.(nodes := w.nodes[f.path := File(after, w.Next().blocks)]), n)
  }

  function SysWrite(w: World, fd: int, buf: seq<byte>): (World, int) {
    if fd !in w.fds then (w, -1)
    else
      var f := w.fds[fd];
      var (after, n) := Stored(w, fd, buf, f.pos);
      if n < 0 then (after, n)
      else (after.(fds := w.fds[fd := f.(pos := WriteOffset(w, f, f.pos) + n)]), n)
  }

  function SysPwrite(w: World, fd: int, buf: seq<byte>, offset: int): (World, int) {
    if fd !in w.fds || offset < 0 then (w, -1) else Stored(w, fd, buf, offset)
  }

  function SysClose(w: World, fd: int): (World, int) {
    if fd in w.fds then (w.(fds := w.fds - {fd}), 0) else (w, -1)
  }

  /** fsync, fdatasync and sync_file_range. */
  function SysFlush(w: World, fd: int): (World, int) {
    if fd !in w.fds || w.Next().res < 0 then (w.Advanced(), -1) else (w.Advanced(), 0)
  }

  // ---------------------------------------------------------------- fallocate

  datatype FallocMode = FallocMode(keepSize: bool, punchHole: bool, collapse: bool, zero: bool, insert: bool)

  predicate ValidMode(m: FallocMode) {
    && (m.punchHole ==> m.keepSize && !m.collapse && !m.zero && !m.insert)
    && (m.collapse ==> !m.keepSize && !m.zero && !m.insert)
    && (m.insert ==> !m.keepSize && !m.zero)
  }

  function Extended(c: seq<byte>, size: nat): seq<byte> {
    if size > |c| then c + Zeros(size - |c|) else c
  }

  function ZeroedWithin(c: seq<byte>, offset: nat, len: nat): seq<byte> {
    if offset < |c| then Splice(c, offset, Zeros(Min(len, |c| - offset))) else c
  }

  predicate RangeAllowed(mode: FallocMode, c: seq<byte>, offset: nat, len: nat) {
    && (mode.collapse ==> offset + len < |c|)
    && (mode.insert ==> offset < |c| && |c| + len <= MAX_OFF)
  }

  function Fallocated(mode: FallocMode, c: seq<byte>, offset: nat, len: nat): seq<byte>
    requires RangeAllowed(mode, c, offset, len)
  {
    if mode.insert then c[..offset] + Zeros(len) + c[offset..]
    else if mode.collapse then c[..offset] + c[offset + len..]
    else
      var zeroed := if mode.punchHole || mode.zero then ZeroedWithin(c, offset, len) else c;
      if mode.keepSize then zeroed else Extended(zeroed, offset + len)
  }

  function SysFallocate(w: World, fd: int, mode: FallocMode, offset: int, len: int): (World, int) {
    var next := w.Advanced();
    if fd !in w.fds || w.Next().res < 0 || !ValidMode(mode) || offset < 0 || len <= 0 || offset + len > MAX_OFF
    then (next, -1)
    else
      var f := w.fds[fd];
      if !f.live || f.path !in w.nodes then (next, 0)
      else match w.nodes[f.path]
        case Dir => (next, -1)
        case File(content, _) =>
          if !RangeAllowed(mode, content, offset, len) then (next, -1)
          else
            var after := File(Fallocated(mode, content, offset, len), w.Next().blocks);
            (next.(nodes := w.nodes[f.path := after]), 0)
  }

  // --------------------------------------------------------------- name space

  /** `p` lies strictly below the directory `d`. */
  predicate Under(d: Path, p: Path) {
    d + [SLASH] <= p
  }

  function Detached(fds: map<int, OpenFile>, path: Path): map<int, OpenFile> {
    map fd | fd in fds :: if fds[fd].path == path then fds[fd].(live := false) else fds[fd]
  }

  /** Mappings of a file that loses its path. */
  function Orphaned(maps: map<int, Mapping>, path: Path): map<int, Mapping> {
    map a | a in maps :: if maps[a].file == Some(path) then maps[a].(file := None) else maps[a]
  }

  function SysUnlink(w: World, path: Path): (World, int) {
    var next := w.Advanced();
    if w.Next().res < 0 || path !in w.nodes || w.nodes[path].Dir? then (next, -1)
    else (next.(nodes := w.nodes - {path}, fds := Detached(w.fds, path), maps := Orphaned(w.maps, path)), 0)
  }

  function SysRemove(w: World, path: Path): (World, int) {
    if path in w.nodes && w.nodes[path].Dir? then
      if w.Next().res < 0 || exists p <- w.nodes :: Under(path, p) then (w.Advanced(), -1)
      else
        (w.Advanced().(nodes := w.nodes - {path}, fds := Detached(w.fds, path), maps := Orphaned(w.maps, path)), 0)
    else SysUnlink(w, path)
  }

  function SysMkdir(w: World, path: Path): (World, int) {
    if w.Next().res < 0 || path in w.nodes || path == [] then (w.Advanced(), -1)
    else (w.Advanced().(nodes := w.nodes[path := Dir]), 0)
  }

  /** Where a rename of `old` to `new` takes the path `p`, and the way back. */
  function Moved(p: Path, o: Path, n: Path): Path {
    if p == o then n else if Under(o, p) then n + p[|o|..] else p
  }

  function MovedMaps(maps: map<int, Mapping>, o: Path, n: Path): map<int, Mapping> {
    map a | a in maps :: maps[a].(file := match maps[a].file
                                          case None => None
                                          case Some(p) => if p == n then None else Some(Moved(p, o, n)))
  }

  function MovedNodes(nodes: map<Path, Node>, o: Path, n: Path): map<Path, Node> {
    map q | q in (set p | p in nodes && p != n :: Moved(p, o, n)) && Moved(q, n, o) in nodes :: nodes[Moved(q, n, o)]
  }

  predicate RenameAllowed(w: World, o: Path, n: Path) {
    && w.Next().res >= 0 && o in w.nodes && n != []
    && (o != n ==>
      && !Under(o, n)
      && (forall p <- w.nodes :: !Under(n, p))
      && (n in w.nodes ==> w.nodes[n].Dir? == w.nodes[o].Dir?))
  }

  function SysRename(w: World, o: Path, n: Path): (World, int) {
    if !RenameAllowed(w, o, n) then (w.Advanced(), -1)
    else if o == n then (w.Advanced(), 0)
    else
      var moved := map fd | fd in w.fds :: w.fds[fd].(path := Moved(w.fds[fd].path, o, n),
                                                     live := w.fds[fd].live && w.fds[fd].path != n);
      (w.Advanced().(nodes := MovedNodes(w.nodes, o, n), fds := moved, maps := MovedMaps(w.maps, o, n)), 0)
  }

  lemma MovedBack(p: Path, o: Path, n: Path)
    requires p != n && !Under(n, p)
    ensures Moved(Moved(p, o, n), n, o) == p
  {
    if Under(o, p) && p != o {
      assert p == o + p[|o|..] && (n + p[|o|..])[|n|..] == p[|o|..];
      assert (n + p[|o|..])[..|n| + 1] == n + [SLASH];
    }
  }

  /** A rename moves every node but the one it replaces, and loses and invents none. */
  lemma RenameMovesAll(w: World, o: Path, n: Path)
    requires RenameAllowed(w, o, n) && o != n
    ensures forall p <- w.nodes :: p != n ==>
      Moved(p, o, n) in MovedNodes(w.nodes, o, n) && MovedNodes(w.nodes, o, n)[Moved(p, o, n)] == w.nodes[p]
    ensures o !in MovedNodes(w.nodes, o, n)
    ensures forall q <- MovedNodes(w.nodes, o, n) :: exists p <- w.nodes :: p != n && q == Moved(p, o, n)
  {
    forall p | p in w.nodes && p != n
      ensures Moved(Moved(p, o, n), n, o) == p && Moved(p, o, n) != o
    {
      MovedBack(p, o, n);
      if Under(o, p) && p != o {
        assert (n + p[|o|..])[..|n| + 1] == n + [SLASH];
        assert !Under(n, o);
      }
    }
  }

  // ----------------------------------------------------------------- mappings

  predicate IsDirectory(w: World, f: OpenFile) {
    f.live && f.path in w.nodes && w.nodes[f.path].Dir?
  }

  function SysMmap(w: World, fd: int, length: nat, writable: bool, shared: bool, offset: nat): (World, int) {
    if w.Next().res < 0 || fd !in w.fds || length == 0 || IsDirectory(w, w.fds[fd]) then (w.Advanced(), -1)
    else
      var f := w.fds[fd];
      var m := Mapping(f.path, offset, length, writable && shared, if f.live then Some(f.path) else None);
      (w.Advanced().(maps := w.maps[w.freeAddress := m], freeAddress := w.freeAddress + length), w.freeAddress)
  }

  /** A store through the mapping at `a` reaches a file that still has a path. */
  predicate Reaches(w: World, a: int, distance: nat, data: seq<byte>) {
    && a in w.maps && w.maps[a].tracked && distance + |data| <= w.maps[a].length
    && w.maps[a].file.Some? && w.maps[a].file.value in w.nodes && w.nodes[w.maps[a].file.value].File?
  }

  /** The workload's own store, `distance` bytes into a mapping; what lies past the end of the file is lost. */
  function SysStore(w: World, a: int, distance: nat, data: seq<byte>): (World, int) {
    if !Reaches(w, a, distance, data) then (w, 0)
    else
      var p := w.maps[a].file.value;
      var stored := Poke(w.nodes[p].content, w.maps[a].offset + distance, data);
      (w.(nodes := w.nodes[p := w.nodes[p].(content := stored)]), 0)
  }

  function SysMsync(w: World, addr: int, length: nat): (World, int) {
    if w.Next().res < 0 then (w.Advanced(), -1) else (w.Advanced(), 0)
  }

  /** Only whole mappings are unmapped here. */
  function SysMunmap(w: World, addr: int, length: nat): (World, int) {
    if addr in w.maps && length == w.maps[addr].length then (w.(maps := w.maps - {addr}), 0) else (w, -1)
  }
}
