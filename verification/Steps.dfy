/** The steps of a workload, what the recorder logs of each, and what the log then says of the files. */
module Steps {
  import opened Bytes
  import opened DiskMods
  import opened Kernel
  import opened LogSemantics
  import opened Recorder
  import opened Unsynced

  datatype Op =
    | OpMkdir(path: Path)
    | OpOpen(path: Path, flags: Flags)
    | OpLseek(fd: int, offset: int, whence: Whence)
    | OpWrite(fd: int, buf: seq<byte>)
    | OpPwrite(fd: int, buf: seq<byte>, offset: int)
    | OpMmap(fd: int, length: nat, writable: bool, shared: bool, mapOffset: nat)
    | OpStore(mapping: int, distance: nat, data: seq<byte>)
    | OpMsync(addr: int, async: bool, memory: seq<byte>)
    | OpMunmap(addr: int, length: nat)
    | OpFallocate(fd: int, mode: FallocMode, offset: int, len: int)
    | OpClose(fd: int)
    | OpRename(path: Path, newPath: Path)
    | OpUnlink(path: Path)
    | OpRemove(path: Path)
    | OpFsync(fd: int)
    | OpSync
    | OpSyncFileRange(fd: int, from: nat, nbytes: nat)
    | OpCheckpoint

  /** The bare system call behind an operation. */
  function Sys(w: World, op: Op): (World, int) {
    match op
    case OpMkdir(path) => SysMkdir(w, path)
    case OpOpen(path, flags) => SysOpen(w, path, flags)
    case OpLseek(fd, offset, whence) => SysLseek(w, fd, offset, whence)
    case OpWrite(fd, buf) => SysWrite(w, fd, buf)
    case OpPwrite(fd, buf, offset) => SysPwrite(w, fd, buf, offset)
    case OpMmap(fd, length, writable, shared, offset) => SysMmap(w, fd, length, writable, shared, offset)
    case OpStore(mapping, distance, data) => SysStore(w, mapping, distance, data)
    case OpMsync(addr, _, memory) => SysMsync(w, addr, |memory|)
    case OpMunmap(addr, length) => SysMunmap(w, addr, length)
    case OpFallocate(fd, mode, offset, len) => SysFallocate(w, fd, mode, offset, len)
    case OpClose(fd) => SysClose(w, fd)
    case OpRename(path, newPath) => SysRename(w, path, newPath)
    case OpUnlink(path) => SysUnlink(w, path)
    case OpRemove(path) => SysRemove(w, path)
    case OpFsync(fd) => SysFlush(w, fd)
    case OpSync => (w, 0)
    case OpSyncFileRange(fd, _, _) => SysFlush(w, fd)
    case OpCheckpoint => (w, 1)
  }

  // ------------------------------------------------- what the recorder knows

  /** What is in step with the kernel. */
  function InStep(w: World): Known {
    Known(Paths(w.fds), TrackedMaps(w.maps))
  }

  /** The maps after an operation: a rename rewrites every path, whatever the kernel answers. */
  function KnownAfter(w: World, k: Known, op: Op): Known {
    var r := Sys(w, op).1;
    match op
    case OpOpen(path, _) => if r < 0 then k else k.(paths := k.paths[r := path])
    case OpClose(fd) => if r < 0 then k else k.(paths := k.paths - {fd})
    case OpRename(path, newPath) => k.(paths := RenamedPaths(k.paths, path, newPath))
    case OpMmap(fd, length, writable, shared, offset) =>
      if r == -1 || !writable || !shared || fd !in k.paths then k
      else k.(maps := k.maps[r := Tracked(k.paths[fd], offset % TWO_32, length % TWO_32)])
    case OpMunmap(addr, _) => if r < 0 then k else k.(maps := k.maps - {addr})
    case _ => k
  }

  /** The descriptor is known, and a stat of the path it is known under succeeds. */
  predicate Findable(w: World, k: Known, fd: int) {
    fd in k.paths && k.paths[fd] in w.nodes
  }

  /**
   What an operation needs for the recorder to be invisible: the descriptors it uses are known and a
   stat of their recorded paths succeeds. Whether those are the right paths does not matter.
   */
  predicate Usable(w: World, k: Known, op: Op) {
    match op
    case OpWrite(fd, _) => Findable(w, k, fd)
    case OpPwrite(fd, _, offset) => Findable(w, k, fd) && offset <= MAX_OFF
    case OpMsync(_, _, memory) => |memory| <= MAX_OFF
    case OpFallocate(fd, _, _, _) => Findable(w, k, fd)
    case OpSyncFileRange(fd, from, nbytes) =>
      (fd in k.paths ==> Findable(w, k, fd)) && from <= MAX_OFF && nbytes <= MAX_OFF
    case _ => true
  }

  /** What a rename needs to leave the recorded paths right: the exact condition of CmRename. */
  ghost predicate KeepsPaths(w: World, op: Op) {
    match op
    case OpRename(path, newPath) =>
      if SysRename(w, path, newPath).1 == 0 then forall fd <- w.fds :: RenameSafe(w.fds[fd].path, path, newPath)
      else path == newPath || forall fd, i | fd in w.fds :: !OccursAt(w.fds[fd].path, path, i)
    case _ => true
  }

  /** What it must further observe for the log to say all the calls did to the files. */
  ghost predicate Accounted(w: World, op: Op) {
    match op
    case OpWrite(fd, _) => fd in w.fds && LandsAt(w, fd, w.fds[fd].pos)
    case OpPwrite(fd, _, offset) => offset >= 0 ==> LandsAt(w, fd, offset)
    case OpMsync(addr, _, memory) => Coherent(View(w.nodes), TrackedMaps(w.maps), addr, memory)
    case OpFallocate(fd, mode, _, _) => fd in w.fds && w.fds[fd].live && !mode.insert
    case OpRename(path, newPath) => SysRename(w, path, newPath).1 != 0 || path == newPath
    case _ => true
  }

  ghost predicate UsableRun(w: World, k: Known, ops: seq<Op>)
    decreases |ops|
  {
    ops == [] || (Usable(w, k, ops[0]) && UsableRun(Sys(w, ops[0]).0, KnownAfter(w, k, ops[0]), ops[1..]))
  }

  ghost predicate KeepsPathsRun(w: World, ops: seq<Op>)
    decreases |ops|
  {
    ops == [] || (KeepsPaths(w, ops[0]) && KeepsPathsRun(Sys(w, ops[0]).0, ops[1..]))
  }

  ghost predicate AccountedRun(w: World, ops: seq<Op>)
    decreases |ops|
  {
    ops == [] || (Accounted(w, ops[0]) && AccountedRun(Sys(w, ops[0]).0, ops[1..]))
  }

  /** A run after which the log can be asked what became of the files. */
  ghost predicate FullyLogged(w: World, ops: seq<Op>) {
    KeepsPathsRun(w, ops) && AccountedRun(w, ops)
  }

  function KnownRun(w: World, k: Known, ops: seq<Op>): Known
    decreases |ops|
  {
    if ops == [] then k else KnownRun(Sys(w, ops[0]).0, KnownAfter(w, k, ops[0]), ops[1..])
  }

  /** The kernel's state stays sound, and the maps stay in step through all but renames that break a path. */
  lemma StepIsSound(w: World, op: Op)
    requires Sound(w)
    ensures Sound(Sys(w, op).0)
    ensures KeepsPaths(w, op) ==> KnownAfter(w, InStep(w), op) == InStep(Sys(w, op).0)
  {
    hide Sound, Paths, TrackedMaps, SysMkdir, SysOpen, SysWrite, SysPwrite, SysMmap, SysFallocate, SysRename,
         SysUnlink, SysRemove, SysStore, SysClose, SysLseek, SysMunmap, RenamedPaths, KeepsPaths;
    SyncIsSound(w);
    match op
    case OpOpen(path, flags) => OpenIsSound(w, path, flags);
    case OpLseek(fd, offset, whence) => SeekIsSound(w, fd, offset, whence);
    case OpWrite(fd, buf) =>
      if fd in w.fds {
        WriteIsSound(w, fd, buf);
      } else {
        UnknownWrite(w, fd, buf, 0);
      }
    case OpPwrite(fd, buf, offset) =>
      if fd in w.fds {
        PwriteIsSound(w, fd, buf, offset);
      } else {
        UnknownWrite(w, fd, buf, offset);
      }
    case OpMmap(fd, length, writable, shared, offset) => MmapIsSound(w, fd, length, writable, shared, offset);
    case OpStore(a, distance, data) => StoreIsSound(w, a, distance, data);
    case OpMunmap(addr, length) => MunmapIsSound(w, addr, length);
    case OpFallocate(fd, mode, offset, len) => FallocateIsSound(w, fd, mode, offset, len);
    case OpClose(fd) => CloseIsSound(w, fd);
    case OpRename(path, newPath) =>
      SoundAfterRename(w, path, newPath);
      if KeepsPaths(w, op) {
        RenameKeepsStep(w, path, newPath);
      }
    case OpUnlink(path) => UnlinkIsSound(w, path);
    case OpRemove(path) => RemoveIsSound(w, path);
    case OpMkdir(path) => MkdirIsSound(w, path);
    case _ =>
  }

  lemma UnknownWrite(w: World, fd: int, buf: seq<byte>, offset: int)
    requires fd !in w.fds
    ensures SysWrite(w, fd, buf) == SysPwrite(w, fd, buf, offset) == (w, -1)
  {
  }

  lemma SeekIsSound(w: World, fd: int, offset: int, whence: Whence)
    requires Sound(w)
    ensures var after := SysLseek(w, fd, offset, whence).0;
      Sound(after) && after.nodes == w.nodes && Paths(after.fds) == Paths(w.fds) && after.maps == w.maps
  {
    var after := SysLseek(w, fd, offset, whence).0;
    SamePathMaps(Paths(after.fds), Paths(w.fds));
  }

  lemma MkdirIsSound(w: World, path: Path)
    requires Sound(w)
    ensures var after := SysMkdir(w, path).0;
      Sound(after) && after.fds == w.fds && after.maps == w.maps
  {
  }

  lemma MunmapIsSound(w: World, addr: int, length: nat)
    requires Sound(w)
    ensures var (after, r) := SysMunmap(w, addr, length);
      && Sound(after) && after.fds == w.fds && after.nodes == w.nodes
      && TrackedMaps(after.maps) == if r < 0 then TrackedMaps(w.maps) else TrackedMaps(w.maps) - {addr}
  {
    var (after, r) := SysMunmap(w, addr, length);
    if r >= 0 {
      assert TrackedMaps(after.maps) == TrackedMaps(w.maps) - {addr};
    }
  }

  lemma CloseIsSound(w: World, fd: int)
    requires Sound(w)
    ensures var (after, r) := SysClose(w, fd);
      && Sound(after) && after.nodes == w.nodes && after.maps == w.maps
      && Paths(after.fds) == if r < 0 then Paths(w.fds) else Paths(w.fds) - {fd}
  {
    var (after, r) := SysClose(w, fd);
    if r >= 0 {
      SamePathMaps(Paths(after.fds), Paths(w.fds) - {fd});
    }
  }

  lemma RenameKeepsStep(w: World, o: Path, n: Path)
    requires Sound(w) && KeepsPaths(w, OpRename(o, n))
    ensures var after := SysRename(w, o, n).0;
      RenamedPaths(Paths(w.fds), o, n) == Paths(after.fds) && TrackedMaps(after.maps) == TrackedMaps(w.maps)
  {
    hide Sound, TrackedMaps, SysRename, RenamedOpenPath, RenameSafe, OccursAt;
    PathsAfterRename(w, Paths(w.fds), RenamedPaths(Paths(w.fds), o, n), o, n);
    RenameAnswers(w, o, n);
  }

  lemma RenameAnswers(w: World, o: Path, n: Path)
    ensures SysRename(w, o, n).1 == 0 || SysRename(w, o, n).1 == -1
  {
  }

  // ------------------------------------------------------- the log of a step

  /** A remembered mapping holds the address. */
  ghost predicate Remembered(maps: map<int, Tracked>, addr: int) {
    exists a <- maps :: Inside(maps, a, addr)
  }

  /** What is recorded of a write that answered `r` and left the world `after`. */
  ghost function WriteAdded(w: World, k: Known, fd: int, buf: seq<byte>, at: int, location: nat, after: World, r: int)
    : seq<Mod>
  {
    if !Findable(w, k, fd) || !(0 <= r <= |buf|) || at < 0 then []
    else
      var path := k.paths[fd];
      if w.nodes[path].Dir? then [EMPTY_MOD.(directoryMod := true, fileModLocation := location)]
      else if path in after.nodes then [WriteMod(path, StatOf(w.nodes[path]), StatOf(after.nodes[path]), at, buf[..r])]
      else []
  }

  /** The changes the recorder adds to its log in a step, when it knows `k`. */
  ghost function Added(w: World, k: Known, op: Op): seq<Mod> {
    var (after, r) := Sys(w, op);
    match op
    case OpMkdir(path) => if r < 0 then [] else [EMPTY_MOD.(directoryMod := true, path := path)]
    case OpOpen(path, flags) =>
      if r < 0 || path !in after.nodes then [] else OpenMods(path, path in w.nodes, flags, after.nodes[path])
    case OpWrite(fd, buf) =>
      if fd !in w.fds then [] else WriteAdded(w, k, fd, buf, w.fds[fd].pos, w.fds[fd].pos, after, r)
    case OpPwrite(fd, buf, offset) => WriteAdded(w, k, fd, buf, offset, 0, after, r)
    case OpMsync(addr, async, memory) =>
      if r < 0 || !Remembered(k.maps, addr) then []
      else
        var a :| a in k.maps && Inside(k.maps, a, addr);
        [SyncMod(k.maps[a], addr - a, async, memory)]
    case OpFallocate(fd, mode, offset, len) =>
      if !Findable(w, k, fd) || r < 0 || offset < 0 || len < 0 || k.paths[fd] !in after.nodes then []
      else
        var path := k.paths[fd];
        [FallocateMod(path, StatOf(w.nodes[path]), StatOf(after.nodes[path]), mode, offset, len)]
    case OpUnlink(path) => if r < 0 then [] else [EMPTY_MOD.(modType := Remove, path := path)]
    case OpRemove(path) => if r < 0 then [] else [EMPTY_MOD.(modType := Remove, path := path)]
    case OpFsync(fd) => if r < 0 || fd !in k.paths then [] else [EMPTY_MOD.(modType := Fsync, path := k.paths[fd])]
    case OpSync => [EMPTY_MOD.(modType := Sync)]
    case OpSyncFileRange(fd, from, nbytes) =>
      if r < 0 || !Findable(w, k, fd) then []
      else
        var path := k.paths[fd];
        [EMPTY_MOD.(modType := SyncFileRange, path := path, postModStats := StatOf(w.nodes[path]),
                    fileModLocation := from, fileModLen := nbytes)]
    case OpCheckpoint => [EMPTY_MOD.(modType := Checkpoint)]
    case _ => []
  }

  /** A call the log accounts for: its records applied to the files before give the files after. */
  lemma CallIsRecorded(w: World, op: Op)
    requires Sound(w) && Usable(w, InStep(w), op) && Accounted(w, op) && !op.OpStore?
    ensures ApplyLog(View(w.nodes), Added(w, InStep(w), op)) == View(Sys(w, op).0.nodes)
  {
    hide ApplyMod, ApplyLog, View, Sound, LandsAt, Coherent, SysMkdir, SysOpen, SysWrite, SysPwrite,
         SysFallocate, SysRename, SysUnlink, SysRemove;
    match op
    case OpMkdir(path) => MkdirIsRecorded(w, path);
    case OpOpen(path, flags) => OpenStepIsRecorded(w, path, flags);
    case OpWrite(fd, buf) => WriteStepIsRecorded(w, fd, buf);
    case OpPwrite(fd, buf, offset) => PwriteStepIsRecorded(w, fd, buf, offset);
    case OpMsync(addr, async, memory) => MsyncStepIsRecorded(w, addr, async, memory);
    case OpFallocate(fd, mode, offset, len) => FallocateStepIsRecorded(w, fd, mode, offset, len);
    case OpUnlink(path) => UnlinkStepIsRecorded(w, path);
    case OpRemove(path) => RemoveStepIsRecorded(w, path);
    case OpRename(path, newPath) =>
      RenameChangesFiles(w, path, newPath);
      ApplyOne(View(w.nodes), EMPTY_MOD);
    case _ => OtherCallsAreIdle(w, op);
  }

  lemma OtherCallsAreIdle(w: World, op: Op)
    requires op.OpLseek? || op.OpMmap? || op.OpMunmap? || op.OpClose?
          || op.OpFsync? || op.OpSync? || op.OpSyncFileRange? || op.OpCheckpoint?
    ensures Sys(w, op).0.nodes == w.nodes && ApplyLog(View(w.nodes), Added(w, InStep(w), op)) == View(w.nodes)
  {
    hide ApplyLog, View, StatOf, WriteMod, FallocateMod, SyncMod, OpenMods;
    IdleIsRecorded(View(w.nodes), Added(w, InStep(w), op));
  }

  lemma ApplyOne(files: Files, m: Mod)
    ensures ApplyLog(files, [m]) == ApplyMod(files, m) && ApplyLog(files, []) == files
  {
    assert [m][..0] == [];
  }

  /** Changes of these types bear on no file. */
  predicate Idle(m: Mod) {
    m.modType == Fsync || m.modType == Sync || m.modType == SyncFileRange || m.modType == Checkpoint
  }

  lemma IdleIsRecorded(files: Files, ms: seq<Mod>)
    requires |ms| <= 1 && forall m <- ms :: Idle(m)
    ensures ApplyLog(files, ms) == files
  {
    if ms == [] {
      ApplyOne(files, EMPTY_MOD);
      assert ms == [];
    } else {
      assert ms == [ms[0]] && Idle(ms[0]);
      ApplyOne(files, ms[0]);
    }
  }

  lemma MkdirIsRecorded(w: World, path: Path)
    ensures ApplyLog(View(w.nodes), Added(w, InStep(w), OpMkdir(path))) == View(SysMkdir(w, path).0.nodes)
  {
    hide ApplyLog;
    ApplyOne(View(w.nodes), EMPTY_MOD.(directoryMod := true, path := path));
    ViewUpdate(w.nodes, path, Dir);
  }

  lemma OpenStepIsRecorded(w: World, path: Path, flags: Flags)
    requires Sound(w)
    ensures ApplyLog(View(w.nodes), Added(w, InStep(w), OpOpen(path, flags))) == View(SysOpen(w, path, flags).0.nodes)
  {
    hide Sound, View, SysOpen, OpenMods, ApplyMod;
    OpenIsSound(w, path, flags);
    if SysOpen(w, path, flags).1 >= 0 {
      OpenIsRecorded(w, path, flags, View(w.nodes), []);
      var added := Added(w, InStep(w), OpOpen(path, flags));
      assert [] + added == added;
    }
  }

  lemma WriteStepIsRecorded(w: World, fd: int, buf: seq<byte>)
    requires Sound(w) && Findable(w, InStep(w), fd) && LandsAt(w, fd, w.fds[fd].pos)
    ensures ApplyLog(View(w.nodes), Added(w, InStep(w), OpWrite(fd, buf))) == View(SysWrite(w, fd, buf).0.nodes)
  {
    hide Sound, View, SysWrite, ApplyMod, ApplyLog, LandsAt;
    WriteIsSound(w, fd, buf);
    var (after, n) := SysWrite(w, fd, buf);
    ApplyOne(View(w.nodes), EMPTY_MOD);
    if n >= 0 {
      var path := w.fds[fd].path;
      var pre, post := StatOf(w.nodes[path]), StatOf(after.nodes[path]);
      WriteIsRecorded(w, fd, buf, pre, post);
      ApplyOne(View(w.nodes), WriteMod(path, pre, post, w.fds[fd].pos, buf[..n]));
    }
  }

  lemma PwriteStepIsRecorded(w: World, fd: int, buf: seq<byte>, offset: int)
    requires Sound(w) && Findable(w, InStep(w), fd) && (offset >= 0 ==> LandsAt(w, fd, offset))
    ensures ApplyLog(View(w.nodes), Added(w, InStep(w), OpPwrite(fd, buf, offset)))
         == View(SysPwrite(w, fd, buf, offset).0.nodes)
  {
    hide Sound, View, ApplyMod, ApplyLog, LandsAt, Stored;
    ApplyOne(View(w.nodes), EMPTY_MOD);
    if offset >= 0 {
      StoredKeepsNodes(w, fd, buf, offset);
      var (after, n) := Stored(w, fd, buf, offset);
      if n >= 0 {
        var path := w.fds[fd].path;
        var pre, post := StatOf(w.nodes[path]), StatOf(after.nodes[path]);
        StoreIsRecorded(w, fd, buf, offset, pre, post);
        ApplyOne(View(w.nodes), WriteMod(path, pre, post, offset, buf[..n]));
      }
    }
  }

  lemma StoredKeepsNodes(w: World, fd: int, buf: seq<byte>, at: nat)
    requires fd in w.fds
    ensures var (after, n) := Stored(w, fd, buf, at);
      && after.nodes.Keys == w.nodes.Keys && -1 <= n <= |buf| && (n < 0 ==> after.nodes == w.nodes)
      && (n >= 0 && LandsAt(w, fd, at) && w.fds[fd].path in w.nodes ==> w.nodes[w.fds[fd].path].File?)
  {
  }

  lemma MsyncStepIsRecorded(w: World, addr: int, async: bool, memory: seq<byte>)
    requires Coherent(View(w.nodes), TrackedMaps(w.maps), addr, memory)
    ensures ApplyLog(View(w.nodes), Added(w, InStep(w), OpMsync(addr, async, memory))) == View(w.nodes)
  {
    hide View, TrackedMaps, ApplyMod, ApplyLog, Coherent;
    ApplyOne(View(w.nodes), EMPTY_MOD);
    var added := Added(w, InStep(w), OpMsync(addr, async, memory));
    if added != [] {
      var a :| a in TrackedMaps(w.maps) && Inside(TrackedMaps(w.maps), a, addr)
               && added == [SyncMod(TrackedMaps(w.maps)[a], addr - a, async, memory)];
      CoherentSync(View(w.nodes), [], View(w.nodes), TrackedMaps(w.maps), a, addr, async, memory);
      assert [] + added == added;
    }
  }

  lemma FallocateStepIsRecorded(w: World, fd: int, mode: FallocMode, offset: int, len: int)
    requires Sound(w) && Findable(w, InStep(w), fd) && w.fds[fd].live && !mode.insert
    ensures ApplyLog(View(w.nodes), Added(w, InStep(w), OpFallocate(fd, mode, offset, len)))
         == View(SysFallocate(w, fd, mode, offset, len).0.nodes)
  {
    hide View, ApplyMod, ApplyLog, Fallocated, RangeAllowed;
    ApplyOne(View(w.nodes), EMPTY_MOD);
    var (after, r) := SysFallocate(w, fd, mode, offset, len);
    if r >= 0 {
      var path := w.fds[fd].path;
      FallocateIsRecorded(w, fd, mode, offset, len);
      ApplyOne(View(w.nodes), FallocateMod(path, StatOf(w.nodes[path]), StatOf(after.nodes[path]), mode, offset, len));
    }
  }

  lemma UnlinkStepIsRecorded(w: World, path: Path)
    requires Sound(w)
    ensures ApplyLog(View(w.nodes), Added(w, InStep(w), OpUnlink(path))) == View(SysUnlink(w, path).0.nodes)
  {
    hide Sound, View, SysUnlink, ApplyLog;
    UnlinkIsSound(w, path);
    ApplyOne(View(w.nodes), EMPTY_MOD.(modType := Remove, path := path));
  }

  lemma RemoveStepIsRecorded(w: World, path: Path)
    requires Sound(w)
    ensures ApplyLog(View(w.nodes), Added(w, InStep(w), OpRemove(path))) == View(SysRemove(w, path).0.nodes)
  {
    hide Sound, View, SysRemove, ApplyLog;
    RemoveIsSound(w, path);
    ApplyOne(View(w.nodes), EMPTY_MOD.(modType := Remove, path := path));
  }

  /** What a call that can be recorded leaves of names and kinds, so that its record can be filled in. */
  lemma RecordableCall(w: World, k: Known, op: Op)
    requires Sound(w) && k.paths.Keys == w.fds.Keys && Usable(w, k, op)
    ensures var (after, r) := Sys(w, op);
      && ((op.OpWrite? || op.OpPwrite?) ==> after.nodes.Keys == w.nodes.Keys && r <= |op.buf|)
      && (op.OpPwrite? && r >= 0 ==> op.offset >= 0)
      && (op.OpFallocate? ==> after.nodes.Keys == w.nodes.Keys && (r >= 0 ==> op.offset >= 0 && op.len >= 0))
      && (op.OpFsync? && r >= 0 ==> op.fd in w.fds)
      && (op.OpSyncFileRange? ==> after.nodes == w.nodes && (r >= 0 ==> op.fd in w.fds))
      && (op.OpOpen? && r >= 0 ==> op.path in after.nodes)
  {
    hide Stored;
    match op
    case OpWrite(fd, buf) => StoredKeepsNodes(w, fd, buf, w.fds[fd].pos);
    case OpPwrite(fd, buf, offset) =>
      if offset >= 0 {
        StoredKeepsNodes(w, fd, buf, offset);
      }
    case OpOpen(path, flags) => OpenIsSound(w, path, flags);
    case _ =>
  }

  // --------------------------------------------------------- ordinary runs

  /** Every open descriptor is on a file that has its path, and none appends. */
  predicate Plain(w: World) {
    forall fd <- w.fds :: w.fds[fd].live && !w.fds[fd].append
  }

  /** What a workload can see to: it appends nowhere, inserts and renames nothing, deletes no open file. */
  predicate Ordinary(w: World, op: Op) {
    match op
    case OpOpen(_, flags) => !flags.append
    case OpWrite(fd, _) => fd in w.fds
    case OpPwrite(fd, _, offset) => fd in w.fds && offset <= MAX_OFF
    case OpMsync(addr, _, memory) => |memory| <= MAX_OFF && Coherent(View(w.nodes), TrackedMaps(w.maps), addr, memory)
    case OpFallocate(fd, mode, _, _) => fd in w.fds && !mode.insert
    case OpRename(path, newPath) => path == newPath
    case OpUnlink(path) => forall fd <- w.fds :: w.fds[fd].path != path
    case OpRemove(path) => forall fd <- w.fds :: w.fds[fd].path != path
    case OpSyncFileRange(_, from, nbytes) => from <= MAX_OFF && nbytes <= MAX_OFF
    case _ => true
  }

  ghost predicate OrdinaryRun(w: World, ops: seq<Op>)
    decreases |ops|
  {
    ops == [] || (Ordinary(w, ops[0]) && OrdinaryRun(Sys(w, ops[0]).0, ops[1..]))
  }

  lemma OrdinaryStep(w: World, op: Op)
    requires Sound(w) && Plain(w) && Ordinary(w, op)
    ensures Usable(w, InStep(w), op) && KeepsPaths(w, op) && Accounted(w, op)
  {
    hide View, TrackedMaps, Coherent;
  }

  lemma StaysPlain(w: World, op: Op)
    requires Sound(w) && Plain(w) && Ordinary(w, op)
    ensures Plain(Sys(w, op).0)
  {
    hide View, TrackedMaps, Coherent, Sound, MovedNodes, MovedMaps, LowestFree, Fallocated;
  }

  /** In an ordinary run the recorder is invisible, and every call accounted for. */
  lemma {:induction false} OrdinaryRunIsAccounted(w: World, ops: seq<Op>)
    requires Sound(w) && Plain(w) && OrdinaryRun(w, ops)
    ensures UsableRun(w, InStep(w), ops) && FullyLogged(w, ops)
    decreases |ops|
  {
    hide Sys, Sound, Plain, Ordinary, Usable, KeepsPaths, Accounted, KnownAfter, InStep;
    if ops != [] {
      OrdinaryStep(w, ops[0]);
      StaysPlain(w, ops[0]);
      StepIsSound(w, ops[0]);
      OrdinaryRunIsAccounted(Sys(w, ops[0]).0, ops[1..]);
    }
  }

  // ------------------------------------------------------ stores and syncs

  /** The places a step changes without a record. */
  function StoredAt(w: World, op: Op): Places {
    match op
    case OpStore(a, distance, data) =>
      if Reaches(w, a, distance, data) then RangeOf(w.maps[a].file.value, w.maps[a].offset + distance, |data|) else {}
    case _ => {}
  }

  /** The places the log is unsure of after a step, if it was unsure of `d` before. */
  ghost function UnsyncedAfter(w: World, k: Known, d: Places, op: Op): Places {
    SettledAll(View(w.nodes), d, Added(w, k, op)) + StoredAt(w, op)
  }

  ghost function UnsyncedRun(w: World, k: Known, d: Places, ops: seq<Op>): Places
    decreases |ops|
  {
    if ops == [] then d
    else UnsyncedRun(Sys(w, ops[0]).0, KnownAfter(w, k, ops[0]), UnsyncedAfter(w, k, d, ops[0]), ops[1..])
  }

  ghost function AddedRun(w: World, k: Known, ops: seq<Op>): seq<Mod>
    decreases |ops|
  {
    if ops == [] then []
    else Added(w, k, ops[0]) + AddedRun(Sys(w, ops[0]).0, KnownAfter(w, k, ops[0]), ops[1..])
  }

  /** One step: files that are right outside some places stay right outside the places then unsynced. */
  lemma StepKeepsAgreement(files: Files, w: World, d: Places, op: Op)
    requires Sound(w) && Usable(w, InStep(w), op) && Accounted(w, op) && AgreeOutside(files, View(w.nodes), d)
    ensures AgreeOutside(ApplyLog(files, Added(w, InStep(w), op)), View(Sys(w, op).0.nodes),
                         UnsyncedAfter(w, InStep(w), d, op))
  {
    hide Sys, Usable, Accounted, Sound, View, AgreeOutside, SettledAll, Added, ApplyLog, StoredAt;
    if op.OpStore? {
      StoreIsUnsynced(files, w, d, op);
    } else {
      CallIsRecorded(w, op);
      NothingInserted(w, InStep(w), op);
      NothingStored(w, op);
      LogKeepsAgreement(files, View(w.nodes), d, Added(w, InStep(w), op));
      assert UnsyncedAfter(w, InStep(w), d, op) == SettledAll(View(w.nodes), d, Added(w, InStep(w), op));
    }
  }

  lemma NothingInserted(w: World, k: Known, op: Op)
    ensures forall m <- Added(w, k, op) :: m.modOpts != InsertRange
  {
    hide Sys;
  }

  lemma NothingStored(w: World, op: Op)
    requires !op.OpStore?
    ensures StoredAt(w, op) == {}
  {
  }

  lemma StoreIsUnsynced(files: Files, w: World, d: Places, op: Op)
    requires op.OpStore? && AgreeOutside(files, View(w.nodes), d)
    ensures AgreeOutside(ApplyLog(files, Added(w, InStep(w), op)), View(Sys(w, op).0.nodes),
                         UnsyncedAfter(w, InStep(w), d, op))
  {
    assert Added(w, InStep(w), op) == [] && ApplyLog(files, []) == files;
    assert UnsyncedAfter(w, InStep(w), d, op) == d + StoredAt(w, op);
    if Reaches(w, op.mapping, op.distance, op.data) {
      var p := w.maps[op.mapping].file.value;
      ViewUpdate(w.nodes, p, Sys(w, op).0.nodes[p]);
      var stored := Poke(w.nodes[p].content, w.maps[op.mapping].offset + op.distance, op.data);
      assert SameBytesOutside(p, files[p].value, stored, d + StoredAt(w, op));
      forall q | q in files && files[q].Some? && q != p
        ensures SameBytesOutside(q, files[q].value, View(w.nodes)[q].value, d + StoredAt(w, op))
      {
        KeptBytes(q, files[q].value, View(w.nodes)[q].value, d, d + StoredAt(w, op));
      }
    } else {
      assert d + {} == d;
    }
  }

  /** A sync that succeeds settles its range. */
  lemma SyncSettles(w: World, k: Known, d: Places, a: int, addr: int, async: bool, memory: seq<byte>)
    requires Sound(w) && SameRanges(k.maps, TrackedMaps(w.maps)) && a in k.maps && Inside(k.maps, a, addr)
    requires SysMsync(w, addr, |memory|).1 >= 0
    ensures var t := k.maps[a];
      && UnsyncedAfter(w, k, d, OpMsync(addr, async, memory)) ==
         d - RangeOf(t.path, t.offset + (addr - a), |memory|)
  {
    hide TrackedMaps, Sound, ApplyLog;
    var op := OpMsync(addr, async, memory);
    MappingsApart(w, k.maps, a, addr);
    assert Remembered(k.maps, addr);
    var m := SyncMod(k.maps[a], addr - a, async, memory);
    assert Added(w, k, op) == [m];
    SettledOne(View(w.nodes), d, m);
  }

  lemma SettledOne(files: Files, d: Places, m: Mod)
    ensures SettledAll(files, d, [m]) == Settled(files, d, m)
  {
    assert [m][..0] == [];
    assert ApplyLog(files, []) == files && SettledAll(files, d, []) == d;
  }

  /** Stored and synced, the bytes of a mapping whose numbers fit and whose file keeps its name are no loss. */
  lemma StoreThenSync(w: World, a: int, distance: nat, data: seq<byte>, async: bool, memory: seq<byte>)
    requires Sound(w) && Reaches(w, a, distance, data) && data != [] && |memory| == |data|
    requires w.maps[a].file == Some(w.maps[a].path) && w.maps[a].offset < TWO_32 && w.maps[a].length < TWO_32
    requires w.Next().res >= 0
    ensures var ops := [OpStore(a, distance, data), OpMsync(a + distance, async, memory)];
      UnsyncedRun(w, InStep(w), {}, ops) == {}
  {
    hide Sound, Sys, UnsyncedAfter, Reaches, TrackedMaps, Paths;
    var store, sync := OpStore(a, distance, data), OpMsync(a + distance, async, memory);
    var after, k := Sys(w, store).0, InStep(w);
    StoreLeaves(w, a, distance, data);
    var d := UnsyncedAfter(w, k, {}, store);
    SyncSettles(after, k, d, a, a + distance, async, memory);
    assert [store, sync][1..] == [sync] && [sync][1..] == [];
    assert UnsyncedRun(w, k, {}, [store, sync]) == UnsyncedRun(after, k, d, [sync]);
    assert UnsyncedRun(after, k, d, [sync]) == UnsyncedRun(Sys(after, sync).0, k, UnsyncedAfter(after, k, d, sync), []);
  }

  lemma StoreLeaves(w: World, a: int, distance: nat, data: seq<byte>)
    requires Sound(w) && Reaches(w, a, distance, data) && data != []
    requires w.maps[a].offset < TWO_32 && w.maps[a].length < TWO_32
    ensures a in w.maps && w.maps[a].file.Some?
    ensures var store := OpStore(a, distance, data); var after := Sys(w, store).0;
      && Sound(after) && after.fate == w.fate && TrackedMaps(after.maps) == TrackedMaps(w.maps)
      && a in TrackedMaps(w.maps)
      && TrackedMaps(w.maps)[a] == Tracked(w.maps[a].path, w.maps[a].offset, w.maps[a].length)
      && Inside(TrackedMaps(w.maps), a, a + distance)
      && UnsyncedAfter(w, InStep(w), {}, store) == RangeOf(w.maps[a].file.value, w.maps[a].offset + distance, |data|)
  {
    hide Sound, SysStore;
    StoreIsSound(w, a, distance, data);
    NothingSettled(View(w.nodes), {});
  }

  lemma NothingSettled(files: Files, d: Places)
    ensures SettledAll(files, d, []) == d
  {
  }

  /** A store changes no name, no kind of node, no descriptor and no mapping. */
  lemma StoreIsSound(w: World, a: int, distance: nat, data: seq<byte>)
    requires Sound(w)
    ensures var after := SysStore(w, a, distance, data).0;
      Sound(after) && after.fds == w.fds && after.maps == w.maps && after.fate == w.fate
  {
  }

  lemma {:induction false} NoneUnsettled(files: Files, ms: seq<Mod>)
    ensures SettledAll(files, {}, ms) == {}
  {
    hide ApplyLog;
    if ms != [] {
      NoneUnsettled(files, ms[..|ms| - 1]);
    }
  }

  /** Without stores through mappings nothing is ever unsynced. */
  lemma {:induction false} UnsyncedNeedsStores(w: World, k: Known, ops: seq<Op>)
    requires forall op <- ops :: !op.OpStore?
    ensures UnsyncedRun(w, k, {}, ops) == {}
    decreases |ops|
  {
    hide Sys, Added, SettledAll, KnownAfter;
    if ops != [] {
      assert ops[0] in ops && forall op <- ops[1..] :: op in ops;
      NoneUnsettled(View(w.nodes), Added(w, k, ops[0]));
      NothingStored(w, ops[0]);
      assert UnsyncedAfter(w, k, {}, ops[0]) == {};
      UnsyncedNeedsStores(Sys(w, ops[0]).0, KnownAfter(w, k, ops[0]), ops[1..]);
    }
  }
}
