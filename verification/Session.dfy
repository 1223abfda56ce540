/** Whole runs of a workload: recorded, passed through, and carried to the checker. */
module Session {
  import opened Bytes
  import opened DiskMods
  import opened Kernel
  import opened LogSemantics
  import opened Recorder
  import opened Steps
  import opened Unsynced
  import ChangeLog
  import Posix

  class PassthroughCmFsOps {
    const fns: FsFns

    constructor (functions: FsFns)
      ensures fns == functions
    {
      fns := functions;
    }

    /** Forwards every call; CmSyncFileRange forgets to return, so its result can be anything. */
    method Do(op: Op) returns (res: int)
      modifies fns
      ensures fns.w == Sys(old(fns.w), op).0
      ensures !op.OpSyncFileRange? ==> res == Sys(old(fns.w), op).1
    {
      hide SysMkdir, SysOpen, SysLseek, SysWrite, SysPwrite, SysMmap, SysMsync, SysMunmap, SysFallocate, SysClose,
           SysRename, SysUnlink, SysRemove, SysFlush, SysStore;
      match op
      case OpMkdir(path) => res := fns.FnMkdir(path);
      case OpOpen(path, flags) => res := fns.FnOpen(path, flags);
      case OpLseek(fd, offset, whence) => res := fns.FnLseek(fd, offset, whence);
      case OpWrite(fd, buf) => res := fns.FnWrite(fd, buf);
      case OpPwrite(fd, buf, offset) => res := fns.FnPwrite(fd, buf, offset);
      case OpMmap(fd, length, writable, shared, offset) => res := fns.FnMmap(fd, length, writable, shared, offset);
      case OpStore(mapping, distance, data) => res := fns.Store(mapping, distance, data);
      case OpMsync(addr, _, memory) => res := fns.FnMsync(addr, |memory|);
      case OpMunmap(addr, length) => res := fns.FnMunmap(addr, length);
      case OpFallocate(fd, mode, offset, len) => res := fns.FnFallocate(fd, mode, offset, len);
      case OpClose(fd) => res := fns.FnClose(fd);
      case OpRename(path, newPath) => res := fns.FnRename(path, newPath);
      case OpUnlink(path) => res := fns.FnUnlink(path);
      case OpRemove(path) => res := fns.FnRemove(path);
      case OpFsync(fd) => res := fns.FnFlush(fd);
      case OpSync => res := 0;
      case OpSyncFileRange(fd, _, _) =>
        var _ := fns.FnFlush(fd);
        res := *;
      case OpCheckpoint => res := fns.CmCheckpoint();
    }
  }

  // ------------------------------------------------------------ recorded steps

  predicate IsWrite(op: Op) {
    op.OpWrite? || op.OpPwrite?
  }

  predicate IsRange(op: Op) {
    op.OpMmap? || op.OpMunmap? || op.OpFallocate?
  }

  predicate IsSync(op: Op) {
    op.OpFsync? || op.OpSync? || op.OpSyncFileRange? || op.OpCheckpoint?
  }

  predicate IsDeletion(op: Op) {
    op.OpRename? || op.OpUnlink? || op.OpRemove?
  }

  method RecordWrite(rec: RecordCmFsOps, op: Op) returns (res: int)
    requires rec.Tracks() && Usable(rec.fns.w, rec.Knows(), op) && IsWrite(op)
    modifies rec, rec.fns
    ensures (rec.fns.w, res) == Sys(old(rec.fns.w), op)
    ensures rec.Tracks() && rec.Knows() == KnownAfter(old(rec.fns.w), old(rec.Knows()), op)
    ensures rec.mods == old(rec.mods) + Added(old(rec.fns.w), old(rec.Knows()), op)
  {
    hide SysWrite, SysPwrite, ApplyLog, View, TrackedMaps, Sane, Sound, LandsAt, StatOf, WriteMod;
    RecordableCall(rec.fns.w, rec.Knows(), op);
    match op
    case OpWrite(fd, buf) => res := rec.CmWrite(fd, buf);
    case OpPwrite(fd, buf, offset) => res := rec.CmPwrite(fd, buf, offset);
  }

  method RecordRange(rec: RecordCmFsOps, op: Op) returns (res: int)
    requires rec.Tracks() && Usable(rec.fns.w, rec.Knows(), op) && IsRange(op)
    modifies rec, rec.fns
    ensures (rec.fns.w, res) == Sys(old(rec.fns.w), op)
    ensures rec.Tracks() && rec.Knows() == KnownAfter(old(rec.fns.w), old(rec.Knows()), op)
    ensures rec.mods == old(rec.mods) + Added(old(rec.fns.w), old(rec.Knows()), op)
  {
    hide SysFallocate, SysMmap, SysMunmap, ApplyLog, View, TrackedMaps, Sane, Sound, StatOf, FallocateMod;
    RecordableCall(rec.fns.w, rec.Knows(), op);
    match op
    case OpMmap(fd, length, writable, shared, offset) => res := rec.CmMmap(fd, length, writable, shared, offset);
    case OpMunmap(addr, length) => res := rec.CmMunmap(addr, length);
    case OpFallocate(fd, mode, offset, len) => res := rec.CmFallocate(fd, mode, offset, len);
  }

  method RecordSync(rec: RecordCmFsOps, op: Op) returns (res: int)
    requires rec.Tracks() && Usable(rec.fns.w, rec.Knows(), op) && IsSync(op)
    modifies rec, rec.fns
    ensures (rec.fns.w, res) == Sys(old(rec.fns.w), op)
    ensures rec.Tracks() && rec.Knows() == KnownAfter(old(rec.fns.w), old(rec.Knows()), op)
    ensures rec.mods == old(rec.mods) + Added(old(rec.fns.w), old(rec.Knows()), op)
  {
    hide ApplyLog, View, TrackedMaps, Sane, Sound, StatOf;
    RecordableCall(rec.fns.w, rec.Knows(), op);
    match op
    case OpFsync(fd) => res := rec.CmFsync(fd);
    case OpSync => rec.CmSync(); res := 0;
    case OpSyncFileRange(fd, from, nbytes) => res := rec.CmSyncFileRange(fd, from, nbytes);
    case OpCheckpoint => res := rec.CmCheckpoint();
  }

  method RecordMsync(rec: RecordCmFsOps, op: Op) returns (res: int)
    requires rec.Tracks() && Usable(rec.fns.w, rec.Knows(), op) && op.OpMsync?
    modifies rec, rec.fns
    ensures (rec.fns.w, res) == Sys(old(rec.fns.w), op)
    ensures rec.Tracks() && rec.Knows() == KnownAfter(old(rec.fns.w), old(rec.Knows()), op)
    ensures rec.mods == old(rec.mods) + Added(old(rec.fns.w), old(rec.Knows()), op)
  {
    hide ApplyLog, View, TrackedMaps, Sane, Sound, Coherent, SyncMod;
    res := rec.CmMsync(op.addr, |op.memory|, op.async, op.memory);
  }

  method RecordDeletion(rec: RecordCmFsOps, op: Op) returns (res: int)
    requires rec.Tracks() && Usable(rec.fns.w, rec.Knows(), op) && IsDeletion(op)
    modifies rec, rec.fns
    ensures (rec.fns.w, res) == Sys(old(rec.fns.w), op)
    ensures rec.Tracks() && rec.Knows() == KnownAfter(old(rec.fns.w), old(rec.Knows()), op)
    ensures rec.mods == old(rec.mods) + Added(old(rec.fns.w), old(rec.Knows()), op)
  {
    hide SysRename, SysUnlink, SysRemove, ApplyLog, View, TrackedMaps, Sane, Sound, RenameSafe, RenamedPaths;
    RecordableCall(rec.fns.w, rec.Knows(), op);
    match op
    case OpRename(path, newPath) => res := rec.CmRename(path, newPath);
    case OpUnlink(path) => res := rec.CmUnlink(path);
    case OpRemove(path) => res := rec.CmRemove(path);
  }

  /** The workload's own store: no call of the recorder's, and nothing in its log. */
  method StoreBetween(rec: RecordCmFsOps, op: Op) returns (res: int)
    requires rec.Tracks() && op.OpStore?
    modifies rec.fns
    ensures (rec.fns.w, res) == Sys(old(rec.fns.w), op)
    ensures rec.Tracks() && Added(old(rec.fns.w), rec.Knows(), op) == []
  {
    hide Sound;
    StoreIsSound(rec.fns.w, op.mapping, op.distance, op.data);
    res := rec.fns.Store(op.mapping, op.distance, op.data);
  }

  /**
   One operation through the recorder: the system call's effect and result, and its records. Known maps
   that were in step stay so if a rename keeps the paths, and then a complete log stays complete if the
   call is accounted for.
   */
  method Record(rec: RecordCmFsOps, op: Op) returns (res: int)
    requires rec.Tracks() && Usable(rec.fns.w, rec.Knows(), op)
    modifies rec, rec.fns
    ensures (rec.fns.w, res) == Sys(old(rec.fns.w), op)
    ensures rec.Tracks() && rec.Knows() == KnownAfter(old(rec.fns.w), old(rec.Knows()), op)
    ensures rec.mods == old(rec.mods) + Added(old(rec.fns.w), old(rec.Knows()), op)
    ensures old(rec.Valid()) && KeepsPaths(old(rec.fns.w), op) ==> rec.Valid()
    ensures old(rec.Valid()) && old(rec.Faithful()) && Accounted(old(rec.fns.w), op) && !op.OpStore? ==> rec.Faithful()
  {
    hide Sys, Sound, ApplyLog, View, Paths, TrackedMaps, KeepsPaths, Accounted, Added, Sane, KnownAfter;
    ghost var w, logged := rec.fns.w, rec.mods;
    ghost var inStep, faithful := rec.Valid(), rec.Faithful();
    StepIsSound(w, op);
    res := RecordCall(rec, op);
    if inStep && faithful && Accounted(w, op) && !op.OpStore? {
      CallIsRecorded(w, op);
      ApplyLogConcat(rec.start, logged, Added(w, InStep(w), op));
    }
  }

  method RecordCall(rec: RecordCmFsOps, op: Op) returns (res: int)
    requires rec.Tracks() && Usable(rec.fns.w, rec.Knows(), op)
    modifies rec, rec.fns
    ensures (rec.fns.w, res) == Sys(old(rec.fns.w), op)
    ensures rec.Tracks() && rec.Knows() == KnownAfter(old(rec.fns.w), old(rec.Knows()), op)
    ensures rec.mods == old(rec.mods) + Added(old(rec.fns.w), old(rec.Knows()), op)
  {
    hide SysOpen, SysClose, SysLseek, SysMkdir, ApplyLog, View, TrackedMaps, Sane, Sound, Paths, StatOf, OpenMods;
    if IsWrite(op) {
      res := RecordWrite(rec, op);
    } else if IsRange(op) {
      res := RecordRange(rec, op);
    } else if op.OpMsync? {
      res := RecordMsync(rec, op);
    } else if IsSync(op) {
      res := RecordSync(rec, op);
    } else if IsDeletion(op) {
      res := RecordDeletion(rec, op);
    } else {
      RecordableCall(rec.fns.w, rec.Knows(), op);
      match op
      case OpMkdir(path) => res := rec.CmMkdir(path);
      case OpOpen(path, flags) => res := rec.CmOpen(path, flags);
      case OpLseek(fd, offset, whence) => res := rec.CmLseek(fd, offset, whence);
      case OpStore(_, _, _) => res := StoreBetween(rec, op);
      case OpClose(fd) => res := rec.CmClose(fd);
    }
  }

  /**
   The same workload through both wrappers, whenever the recorder knows the descriptors the calls use
   and finds something under the paths it has for them: same results, same file system afterwards, and
   the log the calls add up to.

   If moreover the renames keep the paths, the maps stay in step; and if every call is accounted for,
   the log determines the final files but for bytes stored through mappings and not synced since.
   */
  method RunBoth(rec: RecordCmFsOps, pass: PassthroughCmFsOps, ops: seq<Op>) returns (rs: seq<int>, ps: seq<int>)
    requires rec.fns != pass.fns && rec.fns.w == pass.fns.w
    requires rec.Tracks() && UsableRun(rec.fns.w, rec.Knows(), ops)
    modifies rec, rec.fns, pass.fns
    ensures |rs| == |ps| == |ops|
    ensures forall i | 0 <= i < |ops| && !ops[i].OpSyncFileRange? :: rs[i] == ps[i]
    ensures rec.fns.w == pass.fns.w && rec.Tracks()
    ensures rec.Knows() == KnownRun(old(rec.fns.w), old(rec.Knows()), ops)
    ensures rec.mods == old(rec.mods) + AddedRun(old(rec.fns.w), old(rec.Knows()), ops)
    ensures old(rec.Valid()) && KeepsPathsRun(old(rec.fns.w), ops) ==> rec.Valid()
    ensures old(rec.Valid() && rec.Faithful()) && FullyLogged(old(rec.fns.w), ops) ==>
      var unsynced := UnsyncedRun(old(rec.fns.w), old(rec.Knows()), {}, ops);
      && AgreeOutside(ApplyLog(rec.start, rec.mods), View(rec.fns.w.nodes), unsynced)
      && (unsynced == {} ==> rec.Faithful())
  {
    hide Sys, Usable, Accounted, KeepsPaths, Sound, ApplyLog, View, Paths, TrackedMaps, Added, UnsyncedAfter,
         AgreeOutside, KnownAfter, Sane;
    rs, ps := [], [];
    ghost var w0, k0, d := rec.fns.w, rec.Knows(), {};
    ghost var inStep := rec.Valid() && KeepsPathsRun(w0, ops);
    ghost var right := inStep && rec.Faithful() && AccountedRun(w0, ops);
    AgreeEverywhere(ApplyLog(rec.start, rec.mods), View(w0.nodes));
    assert ops[0..] == ops;
    for i := 0 to |ops|
      invariant |rs| == |ps| == i
      invariant forall j | 0 <= j < i && !ops[j].OpSyncFileRange? :: rs[j] == ps[j]
      invariant rec.fns.w == pass.fns.w && rec.Tracks() && UsableRun(rec.fns.w, rec.Knows(), ops[i..])
      invariant KnownRun(w0, k0, ops) == KnownRun(rec.fns.w, rec.Knows(), ops[i..])
      invariant old(rec.mods) + AddedRun(w0, k0, ops) == rec.mods + AddedRun(rec.fns.w, rec.Knows(), ops[i..])
      invariant UnsyncedRun(w0, k0, {}, ops) == UnsyncedRun(rec.fns.w, rec.Knows(), d, ops[i..])
      invariant inStep ==> rec.Valid() && KeepsPathsRun(rec.fns.w, ops[i..])
      invariant right ==> AccountedRun(rec.fns.w, ops[i..])
      invariant right ==> AgreeOutside(ApplyLog(rec.start, rec.mods), View(rec.fns.w.nodes), d)
    {
      assert ops[i..][0] == ops[i] && ops[i..][1..] == ops[i + 1..];
      ghost var w, k, logged := rec.fns.w, rec.Knows(), rec.mods;
      var r := Record(rec, ops[i]);
      var p := pass.Do(ops[i]);
      rs, ps := rs + [r], ps + [p];
      if right {
        StepKeepsAgreement(ApplyLog(rec.start, logged), w, d, ops[i]);
        ApplyLogConcat(rec.start, logged, Added(w, k, ops[i]));
      }
      d := UnsyncedAfter(w, k, d, ops[i]);
    }
    assert ops[|ops|..] == [];
    AgreeEverywhere(ApplyLog(rec.start, rec.mods), View(rec.fns.w.nodes));
  }

  /** An ordinary run without mapped stores: nobody notices the recorder, and its log is complete. */
  method RunOrdinary(rec: RecordCmFsOps, pass: PassthroughCmFsOps, ops: seq<Op>) returns (rs: seq<int>, ps: seq<int>)
    requires rec.fns != pass.fns && rec.fns.w == pass.fns.w
    requires rec.Valid() && rec.Faithful() && Plain(rec.fns.w) && OrdinaryRun(rec.fns.w, ops)
    requires forall op <- ops :: !op.OpStore?
    modifies rec, rec.fns, pass.fns
    ensures |rs| == |ps| == |ops|
    ensures forall i | 0 <= i < |ops| && !ops[i].OpSyncFileRange? :: rs[i] == ps[i]
    ensures rec.fns.w == pass.fns.w && rec.Valid() && rec.Faithful()
  {
    hide Sys, Plain, Ordinary, Sound, ApplyLog, View, Paths, TrackedMaps, Sane;
    OrdinaryRunIsAccounted(rec.fns.w, ops);
    UnsyncedNeedsStores(rec.fns.w, rec.Knows(), ops);
    rs, ps := RunBoth(rec, pass, ops);
  }

  // ------------------------------------------------------------ the whole way

  /** A record keeps everything of a change that bears on the files. */
  lemma CanonicalKeepsEffect(files: Files, m: Mod)
    requires Encodable(m)
    ensures ApplyMod(files, Canonical(m)) == ApplyMod(files, m)
  {
  }

  lemma {:induction false} LoadedLogHasEffect(files: Files, ms: seq<Mod>)
    requires forall m <- ms :: Encodable(m)
    ensures ApplyLog(files, ChangeLog.NonCheckpoints(ChangeLog.CanonicalAll(ms))) == ApplyLog(files, ms)
  {
    hide Encodable, Canonical, ApplyMod;
    if ms != [] {
      var front, last := ms[..|ms| - 1], ms[|ms| - 1];
      assert forall m <- front :: m in ms;
      assert last in ms;
      LoadedLogHasEffect(files, front);
      var all := ChangeLog.CanonicalAll(ms);
      assert all[..|ms| - 1] == ChangeLog.CanonicalAll(front) && all[|ms| - 1] == Canonical(last);
      var before := ChangeLog.NonCheckpoints(ChangeLog.CanonicalAll(front));
      CanonicalKeepsEffect(ApplyLog(files, front), last);
      if Canonical(last).modType == Checkpoint {
        CheckpointHasNoEffect(ApplyLog(files, front), Canonical(last));
        assert before + [] == before;
      } else {
        ApplyLogAppend(files, before, Canonical(last));
      }
    }
  }

  lemma CheckpointHasNoEffect(files: Files, m: Mod)
    requires m.modType == Checkpoint
    ensures ApplyMod(files, m) == files
  {
  }

  /**
   From the workload to the checker: what the tester loads from the change log, its groups laid end to
   end, has the effect of what was recorded; where that determines the files, so does what is loaded.
   On a sound device only a change that cannot be written, a removal say, prevents that.
   */
  method SaveAndLoadLog(rec: RecordCmFsOps, log: Posix.File, tester: ChangeLog.Tester) returns (res: int)
    requires rec.Tracks() && forall m <- rec.mods :: NulFree(m.path) && |m.path| + 2 < TWO_31
    requires log.content == [] && log.pos == 0 && 8 <= log.atom && tester.mods == []
    modifies log`content, log`pos, log`stalls, tester
    ensures !log.faulty ==> (res == 0 <==> forall m <- rec.mods :: ChangeLog.Writable(m))
    ensures res == 0 ==> ApplyLog(rec.start, ChangeLog.Flatten(tester.mods)) == ApplyLog(rec.start, rec.mods)
    ensures res == 0 && rec.Faithful() ==>
      ApplyLog(rec.start, ChangeLog.Flatten(tester.mods)) == View(rec.fns.w.nodes)
  {
    hide ApplyLog, View, Sound, LengthOverflows, Serializable;
    forall m | m in rec.mods
      ensures ChangeLog.Loggable(m)
    {
      SaneIsLoggable(m);
    }
    ghost var mods := rec.mods;
    var overrun;
    res, overrun := rec.Serialize(log);
    if res < 0 {
      return;
    }
    forall m | m in mods
      ensures Encodable(m)
    {
      assert ChangeLog.Loggable(m) && ChangeLog.Writable(m);
    }
    LoadedLogHasEffect(rec.start, mods);
    log.pos := 0;
    assert log.content[0..] == ChangeLog.Stream(mods) + [];
    var wild;
    res, wild := tester.GetChangeData(log, mods, []);
    ChangeLog.GroupsKeepAll([], ChangeLog.CanonicalAll(mods));
    ghost var loaded := ChangeLog.NonCheckpoints(ChangeLog.CanonicalAll(mods));
    assert [] + loaded == loaded;
  }
}
