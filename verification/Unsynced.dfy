/**
 Files that a log does not determine everywhere: stores through a mapping reach a file without a
 record, and what is recorded later settles some of those places.
 */
module Unsynced {
  import opened Bytes
  import opened DiskMods
  import opened Kernel
  import opened LogSemantics

  /** Positions in files. */
  type Places = set<(Path, nat)>

  predicate SameBytesOutside(p: Path, a: seq<byte>, b: seq<byte>, d: Places) {
    |a| == |b| && forall i: nat :: i < |a| && (p, i) !in d ==> a[i] == b[i]
  }

  /** The same names, kinds and lengths, and the same bytes but for some places. */
  predicate AgreeOutside(a: Files, b: Files, d: Places) {
    && a.Keys == b.Keys
    && forall p <- a :: a[p].Some? == b[p].Some? && (a[p].Some? ==> SameBytesOutside(p, a[p].value, b[p].value, d))
  }

  lemma AgreeEverywhere(a: Files, b: Files)
    ensures AgreeOutside(a, b, {}) <==> a == b
  {
    if AgreeOutside(a, b, {}) {
      forall p | p in a
        ensures a[p] == b[p]
      {
        if a[p].Some? {
          assert SameBytesOutside(p, a[p].value, b[p].value, {});
          assert a[p].value == b[p].value;
        }
      }
      assert a == b;
    }
  }

  function RangeOf(p: Path, at: nat, n: nat): (d: Places)
    ensures forall i: nat :: (p, i) in d <==> at <= i < at + n
    ensures forall x <- d :: x.0 == p
  {
    set i | at <= i < at + n :: (p, i)
  }

  /** Whether the places from `at` on, `n` of them, are cut out of the file. */
  predicate Collapses(files: Files, m: Mod) {
    && m.modOpts == CollapseRange && m.path in files && files[m.path].Some?
    && m.fileModLocation + m.fileModLen <= |files[m.path].value|
  }

  /** Places behind a range that is cut out move up, those in it vanish. */
  function ClosedUp(d: Places, p: Path, at: nat, n: nat): (r: Places)
    ensures forall q, i: nat :: q != p || i < at ==> ((q, i) in d ==> (q, i) in r)
    ensures forall i: nat :: i >= at && (p, i + n) in d ==> (p, i) in r
  {
    set x | x in d && !(x.0 == p && at <= x.1 < at + n) :: if x.0 == p && x.1 >= at + n then (p, x.1 - n) else x
  }

  /** The places of `d` that still differ once `m` was applied to both sides; `files` is one of them before. */
  function Settled(files: Files, d: Places, m: Mod): Places {
    match m.modType
    case Create => set x | x in d && x.0 != m.path
    case Remove => set x | x in d && x.0 != m.path
    case Data => SettledContent(files, d, m)
    case DataMetadata => SettledContent(files, d, m)
    case _ => d
  }

  function SettledContent(files: Files, d: Places, m: Mod): Places {
    match m.modOpts
    case Truncate => set x | x in d && x.0 != m.path
    case NoneOpt => d - RangeOf(m.path, m.fileModLocation, |m.fileModData|)
    case MsAsync => d - RangeOf(m.path, m.fileModLocation, |m.fileModData|)
    case MsSync => d - RangeOf(m.path, m.fileModLocation, |m.fileModData|)
    case PunchHoleKeepSize => d - RangeOf(m.path, m.fileModLocation, m.fileModLen)
    case ZeroRange => d - RangeOf(m.path, m.fileModLocation, m.fileModLen)
    case ZeroRangeKeepSize => d - RangeOf(m.path, m.fileModLocation, m.fileModLen)
    case CollapseRange => if Collapses(files, m) then ClosedUp(d, m.path, m.fileModLocation, m.fileModLen) else d
    case _ => d
  }

  function SettledAll(files: Files, d: Places, ms: seq<Mod>): Places {
    if ms == [] then d
    else
      var front := ms[..|ms| - 1];
      Settled(ApplyLog(files, front), SettledAll(files, d, front), ms[|ms| - 1])
  }

  /** A change applied to both sides leaves them alike but for the places it has not settled. */
  lemma ChangeKeepsAgreement(a: Files, b: Files, d: Places, m: Mod)
    requires AgreeOutside(a, b, d) && m.modOpts != InsertRange
    ensures AgreeOutside(ApplyMod(a, m), ApplyMod(b, m), Settled(b, d, m))
  {
    hide ApplyToContent, SettledContent, SameBytesOutside;
    var after := Settled(b, d, m);
    if m.modType == Data || m.modType == DataMetadata {
      forall p | p in a && a[p].Some?
        ensures p != m.path ==> SameBytesOutside(p, a[p].value, b[p].value, after)
        ensures p == m.path ==>
          SameBytesOutside(p, ApplyToContent(a[p].value, m), ApplyToContent(b[p].value, m), after)
      {
        if p == m.path {
          ContentKeepsAgreement(b, a[p].value, d, m);
        } else {
          OtherPathsKept(b, d, m, p);
          KeptBytes(p, a[p].value, b[p].value, d, after);
        }
      }
    } else {
      forall p | p in a && a[p].Some? && p != m.path
        ensures SameBytesOutside(p, a[p].value, b[p].value, after)
      {
        KeptBytes(p, a[p].value, b[p].value, d, after);
      }
      NoBytes(m.path, after);
      if m.modType != Create && m.modType != Remove {
        assert ApplyMod(a, m) == a && ApplyMod(b, m) == b && after == d;
      }
    }
  }

  lemma NoBytes(p: Path, d: Places)
    ensures SameBytesOutside(p, [], [], d)
  {
  }

  lemma KeptBytes(p: Path, a: seq<byte>, b: seq<byte>, d: Places, after: Places)
    requires SameBytesOutside(p, a, b, d) && forall i: nat :: (p, i) in d ==> (p, i) in after
    ensures SameBytesOutside(p, a, b, after)
  {
  }

  lemma OtherPathsKept(files: Files, d: Places, m: Mod, p: Path)
    requires p != m.path
    ensures forall i: nat :: (p, i) in d ==> (p, i) in SettledContent(files, d, m)
  {
  }

  lemma ContentKeepsAgreement(files: Files, a: seq<byte>, d: Places, m: Mod)
    requires m.path in files && files[m.path].Some? && m.modOpts != InsertRange
    requires SameBytesOutside(m.path, a, files[m.path].value, d)
    ensures SameBytesOutside(m.path, ApplyToContent(a, m), ApplyToContent(files[m.path].value, m),
                             SettledContent(files, d, m))
  {
    var b := files[m.path].value;
    var at := m.fileModLocation;
    match m.modOpts
    case NoneOpt => SpliceSettles(m.path, a, b, d, at, m.fileModData, |m.fileModData|);
    case MsAsync => SpliceSettles(m.path, a, b, d, at, m.fileModData, |m.fileModData|);
    case MsSync => SpliceSettles(m.path, a, b, d, at, m.fileModData, |m.fileModData|);
    case PunchHoleKeepSize => ZeroesSettle(m.path, a, b, d, at, m.fileModLen);
    case ZeroRangeKeepSize => ZeroesSettle(m.path, a, b, d, at, m.fileModLen);
    case ZeroRange =>
      ZeroesSettle(m.path, a, b, d, at, m.fileModLen);
      var zeroed := ZeroedWithin(a, at, m.fileModLen);
      ExtendedAlike(m.path, zeroed, ZeroedWithin(b, at, m.fileModLen), d - RangeOf(m.path, at, m.fileModLen),
                    at + m.fileModLen);
    case Fallocate => ExtendedAlike(m.path, a, b, d, at + m.fileModLen);
    case CollapseRange => CollapseMoves(m.path, a, b, d, at, m.fileModLen);
    case _ =>
  }

  lemma SpliceSettles(p: Path, a: seq<byte>, b: seq<byte>, d: Places, at: nat, data: seq<byte>, n: nat)
    requires SameBytesOutside(p, a, b, d) && (|data| == n || (|data| < n && at + |data| == |a|))
    ensures SameBytesOutside(p, Splice(a, at, data), Splice(b, at, data), d - RangeOf(p, at, n))
  {
  }

  lemma ZeroesSettle(p: Path, a: seq<byte>, b: seq<byte>, d: Places, at: nat, n: nat)
    requires SameBytesOutside(p, a, b, d)
    ensures SameBytesOutside(p, ZeroedWithin(a, at, n), ZeroedWithin(b, at, n), d - RangeOf(p, at, n))
  {
    if at < |a| {
      SpliceSettles(p, a, b, d, at, Zeros(Min(n, |a| - at)), n);
    }
  }

  lemma ExtendedAlike(p: Path, a: seq<byte>, b: seq<byte>, d: Places, size: nat)
    requires SameBytesOutside(p, a, b, d)
    ensures SameBytesOutside(p, Extended(a, size), Extended(b, size), d)
  {
  }

  lemma CollapseMoves(p: Path, a: seq<byte>, b: seq<byte>, d: Places, at: nat, n: nat)
    requires SameBytesOutside(p, a, b, d)
    ensures at + n <= |a| ==>
      SameBytesOutside(p, a[..at] + a[at + n..], b[..at] + b[at + n..], ClosedUp(d, p, at, n))
  {
    if at + n <= |a| {
      var x, y := a[..at] + a[at + n..], b[..at] + b[at + n..];
      forall i: nat | i < |x| && (p, i) !in ClosedUp(d, p, at, n)
        ensures x[i] == y[i]
      {
        if i >= at {
          assert x[i] == a[i + n] && y[i] == b[i + n];
        }
      }
    }
  }

  /** A log applied to both sides. */
  lemma {:induction false} LogKeepsAgreement(a: Files, b: Files, d: Places, ms: seq<Mod>)
    requires AgreeOutside(a, b, d) && forall m <- ms :: m.modOpts != InsertRange
    ensures AgreeOutside(ApplyLog(a, ms), ApplyLog(b, ms), SettledAll(b, d, ms))
  {
    hide AgreeOutside, ApplyMod, Settled;
    if ms != [] {
      var front, last := ms[..|ms| - 1], ms[|ms| - 1];
      assert last in ms && forall m <- front :: m in ms;
      LogKeepsAgreement(a, b, d, front);
      ChangeKeepsAgreement(ApplyLog(a, front), ApplyLog(b, front), SettledAll(b, d, front), last);
    }
  }
}
