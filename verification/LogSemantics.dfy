/** What a log of recorded changes says about the files: each change applied in order. */
module LogSemantics {
  import opened Bytes
  import opened DiskMods
  import opened Kernel

  /** The content of a file after a fallocate recorded with these options. */
  function OptEffect(opts: ModOpts, c: seq<byte>, offset: nat, len: nat): seq<byte> {
    match opts
    case Fallocate => Extended(c, offset + len)
    case PunchHoleKeepSize => ZeroedWithin(c, offset, len)
    case CollapseRange => if offset + len <= |c| then c[..offset] + c[offset + len..] else c
    case ZeroRange => Extended(ZeroedWithin(c, offset, len), offset + len)
    case ZeroRangeKeepSize => ZeroedWithin(c, offset, len)
    case InsertRange => if offset <= |c| then c[..offset] + Zeros(len) + c[offset..] else c
    case _ => c
  }

  function ApplyToContent(c: seq<byte>, m: Mod): seq<byte> {
    match m.modOpts
    case Truncate => []
    case NoneOpt => Splice(c, m.fileModLocation, m.fileModData)
    case MsAsync => Splice(c, m.fileModLocation, m.fileModData)
    case MsSync => Splice(c, m.fileModLocation, m.fileModData)
    case _ => OptEffect(m.modOpts, c, m.fileModLocation, m.fileModLen)
  }

  function ApplyMod(files: Files, m: Mod): Files {
    match m.modType
    case Create => files[m.path := if m.directoryMod then None else Some([])]
    case Remove => files - {m.path}
    case Data => ApplyChange(files, m)
    case DataMetadata => ApplyChange(files, m)
    case _ => files
  }

  function ApplyChange(files: Files, m: Mod): Files {
    if m.path in files && files[m.path].Some? then files[m.path := Some(ApplyToContent(files[m.path].value, m))]
    else files
  }

  function ApplyLog(files: Files, ms: seq<Mod>): Files {
    if ms == [] then files else ApplyMod(ApplyLog(files, ms[..|ms| - 1]), ms[|ms| - 1])
  }

  lemma ApplyLogAppend(files: Files, ms: seq<Mod>, m: Mod)
    ensures ApplyLog(files, ms + [m]) == ApplyMod(ApplyLog(files, ms), m)
  {
    assert (ms + [m])[..|ms|] == ms;
  }

  lemma {:induction false} ApplyLogConcat(files: Files, a: seq<Mod>, b: seq<Mod>)
    ensures ApplyLog(files, a + b) == ApplyLog(ApplyLog(files, a), b)
  {
    hide ApplyMod;
    if b == [] {
      assert a + b == a;
    } else {
      assert (a + b)[..|a + b| - 1] == a + b[..|b| - 1];
      ApplyLogConcat(files, a, b[..|b| - 1]);
    }
  }

  /** The options the recorder files a fallocate mode under. */
  function OptsOfMode(mode: FallocMode): ModOpts {
    if mode.punchHole then PunchHoleKeepSize
    else if mode.collapse then CollapseRange
    else if mode.zero then if mode.keepSize then ZeroRangeKeepSize else ZeroRange
    else if mode.keepSize then FallocateKeepSize
    else Fallocate
  }

  /** The recorded options reproduce the call on every file if and only if it inserts no range. */
  lemma FallocateOptsExact(mode: FallocMode)
    requires ValidMode(mode)
    ensures (forall c, offset, len | RangeAllowed(mode, c, offset, len) ::
              OptEffect(OptsOfMode(mode), c, offset, len) == Fallocated(mode, c, offset, len))
       <==> !mode.insert
  {
    if mode.insert {
      var c: seq<byte> := [1];
      assert RangeAllowed(mode, c, 0, 1);
      assert Fallocated(mode, c, 0, 1)[0] == 0 && OptEffect(OptsOfMode(mode), c, 0, 1)[0] == 1;
    }
  }

  /**
   A synced range brings the log up to date: if file and replica have one length and differ at
   most inside the range, splicing the range in makes them equal.
   */
  lemma SyncedRangeCatchesUp(file: seq<byte>, replica: seq<byte>, offset: nat, len: nat)
    requires |file| == |replica| && offset + len <= |file|
    requires forall i :: 0 <= i < |file| && !(offset <= i < offset + len) ==> file[i] == replica[i]
    ensures Splice(replica, offset, file[offset..offset + len]) == file
  {
    var after := Splice(replica, offset, file[offset..offset + len]);
    assert |after| == |file|;
    forall i | 0 <= i < |file|
      ensures after[i] == file[i]
    {
    }
  }
}
