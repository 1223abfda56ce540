/** One recorded file-system change and its serialised form. */
module DiskMods {
  import opened Bytes

  datatype ModType =
    | Create | DataMetadata | Metadata | Data | DataMmap | Remove | Checkpoint | Fsync | Sync | SyncFileRange

  datatype ModOpts =
    | NoneOpt | Truncate
    | Fallocate | FallocateKeepSize | PunchHoleKeepSize | CollapseRange | ZeroRange | ZeroRangeKeepSize | InsertRange
    | MsAsync | MsSync

  /** The fields of `struct stat` the wrapper looks at. */
  datatype Stat = Stat(size: nat, blocks: nat, isDir: bool)

  /** A DiskMod as a value: a null data pointer is the empty sequence. */
  datatype Mod = Mod(
    path: seq<byte>,
    modType: ModType,
    modOpts: ModOpts,
    postModStats: Stat,
    directoryMod: bool,
    fileModData: seq<byte>,
    fileModLocation: nat,
    fileModLen: nat,
    directoryAddedEntry: seq<byte>)

  /** A DiskMod fresh from its constructor. */
  const EMPTY_MOD: Mod := Mod([], Create, NoneOpt, Stat(0, 0, false), false, [], 0, 0, [])

  function TypeCode(t: ModType): nat {
    match t
    case Create => 0
    case DataMetadata => 1
    case Metadata => 2
    case Data => 3
    case DataMmap => 4
    case Remove => 5
    case Checkpoint => 6
    case Fsync => 7
    case Sync => 8
    case SyncFileRange => 9
  }

  function TypeOfCode(code: nat): ModType
    requires code < 10
  {
    [Create, DataMetadata, Metadata, Data, DataMmap, Remove, Checkpoint, Fsync, Sync, SyncFileRange][code]
  }

  function OptsCode(o: ModOpts): nat {
    match o
    case NoneOpt => 0
    case Truncate => 1
    case Fallocate => 2
    case FallocateKeepSize => 3
    case PunchHoleKeepSize => 4
    case CollapseRange => 5
    case ZeroRange => 6
    case ZeroRangeKeepSize => 7
    case InsertRange => 8
    case MsAsync => 9
    case MsSync => 10
  }

  function OptsOfCode(code: nat): ModOpts
    requires code < 11
  {
    [NoneOpt, Truncate, Fallocate, FallocateKeepSize, PunchHoleKeepSize, CollapseRange,
     ZeroRange, ZeroRangeKeepSize, InsertRange, MsAsync, MsSync][code]
  }

  predicate NulFree(s: seq<byte>) {
    0 !in s
  }

  /** Nothing follows the type and options of these. */
  predicate HeaderOnly(m: Mod) {
    m.modType == Checkpoint || m.modType == Sync
  }

  /** Nothing follows the path of these. */
  predicate PathOnly(m: Mod) {
    m.modType == Fsync || m.modType == Create
  }

  /** These carry a range but not its bytes. */
  predicate RangeOnly(m: Mod) {
    || m.modType == SyncFileRange
    || m.modOpts in {Fallocate, FallocateKeepSize, PunchHoleKeepSize, CollapseRange,
                     ZeroRange, ZeroRangeKeepSize, InsertRange}
  }

  // ------------------------------------------------------------- the format

  function Header(m: Mod): (s: seq<byte>)
    ensures |s| == 4
  {
    ToBE(TypeCode(m.modType), 2) + ToBE(OptsCode(m.modOpts), 2)
  }

  function ChangeHeader(m: Mod): seq<byte> {
    m.path + [0] + [if m.directoryMod then 1 else 0]
  }

  function DataRange(m: Mod): seq<byte> {
    ToBE(m.fileModLocation, 8) + ToBE(m.fileModLen, 8) + (if RangeOnly(m) then [] else m.fileModData)
  }

  /** What follows the header of a change. */
  function Change(m: Mod): seq<byte> {
    if HeaderOnly(m) then []
    else if PathOnly(m) then ChangeHeader(m)
    else ChangeHeader(m) + DataRange(m)
  }

  /** What the Serialize helpers write after the size field. */
  function Body(m: Mod): seq<byte> {
    Header(m) + Change(m)
  }

  function Record(m: Mod): seq<byte> {
    ToBE(GetSerializeSize(m), 8) + Body(m)
  }

  function GetSerializeSize(m: Mod): nat {
    var base := 2 * 2 + 8;
    if m.modType == Checkpoint || m.modType == Sync then base
    else
      var withPath := base + 1 + |m.path| + 1;
      if m.modType == Fsync || m.modType == Remove || m.modType == Create then withPath
      else if RangeOnly(m) then withPath + 2 * 8
      else if m.directoryMod then withPath + |m.directoryAddedEntry| + 1
      else withPath + 2 * 8 + m.fileModLen
  }

  /** The data of a change is as long as it says, and it is not a change inside a directory. */
  predicate Consistent(m: Mod) {
    || HeaderOnly(m)
    || PathOnly(m)
    || (!m.directoryMod && (RangeOnly(m) || |m.fileModData| == m.fileModLen))
  }

  /** The size calculator agrees with what is written for every type but removals. */
  lemma SizeAgreement(m: Mod)
    requires Consistent(m)
    ensures GetSerializeSize(m) == 8 + |Body(m)| <==> m.modType != Remove
    ensures m.modType == Remove ==> GetSerializeSize(m) + |DataRange(m)| == 8 + |Body(m)|
  {
    assert |DataRange(m)| >= 16;
  }

  /** A change whose path is a C string and whose numbers fit their fields. */
  predicate Serializable(m: Mod) {
    && Consistent(m)
    && (HeaderOnly(m) || NulFree(m.path))
    && m.fileModLocation < TWO_64
    && m.fileModLen < TWO_64
    && GetSerializeSize(m) < TWO_64
  }

  /** The changes whose record fits the buffer Serialize allocates for it. */
  predicate Encodable(m: Mod) {
    Serializable(m) && m.modType != Remove
  }

  /** What of a change its record keeps. */
  function Canonical(m: Mod): Mod {
    var header := EMPTY_MOD.(modType := m.modType, modOpts := m.modOpts);
    if HeaderOnly(m) then header
    else
      var change := header.(path := m.path, directoryMod := m.directoryMod);
      if PathOnly(m) then change
      else
        var range := change.(fileModLocation := m.fileModLocation, fileModLen := m.fileModLen);
        if RangeOnly(m) then range else range.(fileModData := m.fileModData)
  }

  /** The kept fields, by type; all others are those of a fresh DiskMod. */
  lemma CanonicalFields(m: Mod)
    ensures m.modType in {Checkpoint, Sync} ==>
      Canonical(m) == Mod([], m.modType, m.modOpts, Stat(0, 0, false), false, [], 0, 0, [])
    ensures m.modType in {Fsync, Create} ==>
      Canonical(m) == Mod(m.path, m.modType, m.modOpts, Stat(0, 0, false), m.directoryMod, [], 0, 0, [])
    ensures m.modType in {DataMetadata, Metadata, Data, DataMmap, Remove, SyncFileRange} ==>
      Canonical(m) == Mod(m.path, m.modType, m.modOpts, Stat(0, 0, false), m.directoryMod,
                          if m.modType == SyncFileRange
                             || m.modOpts in {Fallocate, FallocateKeepSize, PunchHoleKeepSize, CollapseRange,
                                              ZeroRange, ZeroRangeKeepSize, InsertRange} then []
                          else m.fileModData,
                          m.fileModLocation, m.fileModLen, [])
  {
  }

  /** The bytes after the size field of `b` begin with the record of `m`. */
  ghost predicate Decodes(b: seq<byte>, m: Mod) {
    && Encodable(m)
    && Canonical(m) == m
    && |b| >= 8
    && Body(m) <= b[8..]
  }

  /** A record decodes, and to the change that was serialised, less the fields it does not keep. */
  lemma RecordDecodes(m: Mod, rest: seq<byte>)
    requires Encodable(m)
    ensures Decodes(Record(m) + rest, Canonical(m))
    ensures Record(Canonical(m)) == Record(m)
  {
    hide ToBE, Body, Canonical, Encodable, GetSerializeSize;
    CanonicalKeepsRecord(m);
    assert (Record(m) + rest)[8..] == Body(m) + rest;
  }

  lemma CanonicalKeepsRecord(m: Mod)
    requires Encodable(m)
    ensures Body(Canonical(m)) == Body(m) && GetSerializeSize(Canonical(m)) == GetSerializeSize(m)
    ensures Encodable(Canonical(m)) && Canonical(Canonical(m)) == Canonical(m)
  {
    hide ToBE;
  }

  /** The layout of a record, byte by byte. */
  lemma RecordLayout(m: Mod)
    requires Encodable(m)
    ensures var r := Record(m);
      && |r| >= 12 && FromBE(r[..8]) == |r|
      && r[8..10] == [0, match m.modType
                         case Create => 0 case DataMetadata => 1 case Metadata => 2 case Data => 3 case DataMmap => 4
                         case Remove => 5 case Checkpoint => 6 case Fsync => 7 case Sync => 8 case SyncFileRange => 9]
      && r[10..12] == [0, match m.modOpts
                          case NoneOpt => 0 case Truncate => 1 case Fallocate => 2 case FallocateKeepSize => 3
                          case PunchHoleKeepSize => 4 case CollapseRange => 5 case ZeroRange => 6
                          case ZeroRangeKeepSize => 7 case InsertRange => 8 case MsAsync => 9 case MsSync => 10]
    ensures m.modType in {Checkpoint, Sync} ==> |Record(m)| == 12
    ensures m.modType !in {Checkpoint, Sync} ==>
      var r := Record(m); var at := 12 + |m.path|;
      && |r| >= at + 2 && r[12..at] == m.path && r[at] == 0 && r[at + 1] == if m.directoryMod then 1 else 0
    ensures m.modType in {Fsync, Create} ==> |Record(m)| == 14 + |m.path|
    ensures m.modType !in {Checkpoint, Sync, Fsync, Create} ==>
      var r := Record(m); var at := 14 + |m.path|;
      && |r| >= at + 16
      && FromBE(r[at..at + 8]) == m.fileModLocation && FromBE(r[at + 8..at + 16]) == m.fileModLen
      && r[at + 16..] == (
           if m.modType == SyncFileRange
              || m.modOpts in {Fallocate, FallocateKeepSize, PunchHoleKeepSize, CollapseRange, ZeroRange,
                               ZeroRangeKeepSize, InsertRange} then []
           else m.fileModData)
  {
    hide ToBE, FromBE, GetSerializeSize, Record, Change, DataRange;
    RecordParts(m);
    SizeFieldValue(m);
    var r := Record(m);
    HeaderLayout(r, m);
    if !HeaderOnly(m) {
      ChangeLayout(r[12..], m);
      var t, at := r[12..], 12 + |m.path|;
      assert r[12..at] == t[..|m.path|] && r[at] == t[|m.path|] && r[at + 1] == t[|m.path| + 1];
      if !PathOnly(m) {
        var d := t[|m.path| + 2..];
        RangeLayout(d, m);
        assert d == r[at + 2..];
        assert r[at + 2..at + 10] == d[..8] && r[at + 10..at + 18] == d[8..16] && r[at + 18..] == d[16..];
      }
    }
  }

  lemma HeaderLayout(r: seq<byte>, m: Mod)
    requires Encodable(m) && r == Record(m)
    ensures |r| >= 12 && r[12..] == Change(m)
    ensures r[8..10] == [0, TypeCode(m.modType)] && r[10..12] == [0, OptsCode(m.modOpts)]
  {
    hide ToBE, GetSerializeSize, Change, TypeCode, OptsCode, Header, Encodable;
    assert r[8..12] == Header(m);
    HeaderBytes(m);
    assert r[8..10] == Header(m)[..2] && r[10..12] == Header(m)[2..];
  }

  lemma ChangeLayout(t: seq<byte>, m: Mod)
    requires t == Change(m) && !HeaderOnly(m)
    ensures |t| >= |m.path| + 2 && t[..|m.path|] == m.path && t[|m.path|] == 0
    ensures t[|m.path| + 1] == if m.directoryMod then 1 else 0
    ensures PathOnly(m) ==> |t| == |m.path| + 2
    ensures !PathOnly(m) ==> t[|m.path| + 2..] == DataRange(m)
  {
    hide DataRange;
    ChangeParts(t, m);
    assert t[..|m.path| + 2] == ChangeHeader(m);
  }

  lemma RangeLayout(d: seq<byte>, m: Mod)
    requires d == DataRange(m) && m.fileModLocation < TWO_64 && m.fileModLen < TWO_64
    ensures |d| >= 16 && FromBE(d[..8]) == m.fileModLocation && FromBE(d[8..16]) == m.fileModLen
    ensures d[16..] == if RangeOnly(m) then [] else m.fileModData
  {
    hide ToBE, FromBE, RangeOnly;
    FixedWidths(m);
    assert d[..8] == ToBE(m.fileModLocation, 8) && d[8..16] == ToBE(m.fileModLen, 8);
  }

  lemma SizeFieldValue(m: Mod)
    requires Encodable(m)
    ensures |Record(m)| >= 8 && FromBE(Record(m)[..8]) == |Record(m)|
  {
    hide ToBE, FromBE, GetSerializeSize, Body;
    RecordParts(m);
    Pow256Values();
    BigEndianRoundTrip(GetSerializeSize(m), 8);
    assert Record(m)[..8] == ToBE(GetSerializeSize(m), 8);
  }

  lemma HeaderBytes(m: Mod)
    ensures Header(m) == [0, TypeCode(m.modType), 0, OptsCode(m.modOpts)]
  {
    SmallBE(TypeCode(m.modType));
    SmallBE(OptsCode(m.modOpts));
  }

  lemma SmallBE(v: byte)
    ensures ToBE(v, 2) == [0, v]
  {
    assert ToBE(v, 2) == ToBE(0, 1) + [v] && ToBE(0, 1) == ToBE(0, 0) + [0];
  }

  /** The format is unambiguous even without its size field: no bytes decode in two ways. */
  lemma DecodesUniquely(b: seq<byte>, m1: Mod, m2: Mod)
    requires Decodes(b, m1) && Decodes(b, m2)
    ensures m1 == m2
  {
    hide ToBE, FromBE, Body, Header, Change, DataRange, GetSerializeSize, TypeCode, OptsCode, TypeOfCode, OptsOfCode;
    FixedWidths(m1);
    FixedWidths(m2);
    BodyStart(b[8..], m1);
    BodyStart(b[8..], m2);
    assert m1.modType == m2.modType && m1.modOpts == m2.modOpts;
    if !HeaderOnly(m1) {
      var t := b[8..][4..];
      ChangeParts(t, m1);
      ChangeParts(t, m2);
      SameString(t, m1.path, m2.path);
      if !PathOnly(m1) {
        SameRange(t[|m1.path| + 2..], m1, m2);
      }
    }
  }

  /** Where the parts of a record lie in the bytes that begin with it. */
  lemma BodyStart(s: seq<byte>, m: Mod)
    requires Body(m) <= s
    ensures |s| >= 4 && s[..4] == Header(m) && Change(m) <= s[4..]
  {
    hide Header, Change;
    assert s[..4] == Body(m)[..4];
    assert s[4..][..|Change(m)|] == Body(m)[4..];
  }

  lemma ChangeParts(t: seq<byte>, m: Mod)
    requires Change(m) <= t && !HeaderOnly(m)
    ensures |t| >= |m.path| + 2 && m.path + [0] <= t && t[|m.path| + 1] == if m.directoryMod then 1 else 0
    ensures !PathOnly(m) ==> DataRange(m) <= t[|m.path| + 2..]
  {
    hide DataRange, HeaderOnly, PathOnly;
    assert t[..|m.path| + 2] == Change(m)[..|m.path| + 2] == ChangeHeader(m);
    assert t[..|m.path| + 1] == m.path + [0];
    if !PathOnly(m) {
      assert t[|m.path| + 2..][..|DataRange(m)|] == DataRange(m);
    }
  }

  lemma FixedWidths(m: Mod)
    ensures FromBE(ToBE(TypeCode(m.modType), 2)) == TypeCode(m.modType)
    ensures FromBE(ToBE(OptsCode(m.modOpts), 2)) == OptsCode(m.modOpts)
    ensures m.fileModLocation < TWO_64 ==> FromBE(ToBE(m.fileModLocation, 8)) == m.fileModLocation
    ensures m.fileModLen < TWO_64 ==> FromBE(ToBE(m.fileModLen, 8)) == m.fileModLen
    ensures Header(m)[..2] == ToBE(TypeCode(m.modType), 2) && Header(m)[2..] == ToBE(OptsCode(m.modOpts), 2)
    ensures TypeOfCode(TypeCode(m.modType)) == m.modType && OptsOfCode(OptsCode(m.modOpts)) == m.modOpts
  {
    Pow256Values();
    BigEndianRoundTrip(TypeCode(m.modType), 2);
    BigEndianRoundTrip(OptsCode(m.modOpts), 2);
    if m.fileModLocation < TWO_64 {
      BigEndianRoundTrip(m.fileModLocation, 8);
    }
    if m.fileModLen < TWO_64 {
      BigEndianRoundTrip(m.fileModLen, 8);
    }
  }

  /** Two terminated strings at the start of the same bytes are the same string. */
  lemma SameString(s: seq<byte>, p1: seq<byte>, p2: seq<byte>)
    requires NulFree(p1) && NulFree(p2)
    requires p1 + [0] <= s && p2 + [0] <= s
    ensures p1 == p2
  {
    FirstNul(s, p1);
    FirstNul(s, p2);
    assert p1 == s[..|p1|] && p2 == s[..|p2|];
  }

  lemma FirstNul(s: seq<byte>, p: seq<byte>)
    requires NulFree(p) && p + [0] <= s
    ensures |p| < |s| && s[|p|] == 0 && forall k :: 0 <= k < |p| ==> s[k] != 0
  {
    assert s[|p|] == (p + [0])[|p|];
    forall k | 0 <= k < |p|
      ensures s[k] != 0
    {
      assert s[k] == (p + [0])[k] == p[k] && p[k] in p;
    }
  }

  lemma SameRange(t: seq<byte>, m1: Mod, m2: Mod)
    requires m1.fileModLocation < TWO_64 && m1.fileModLen < TWO_64
    requires m2.fileModLocation < TWO_64 && m2.fileModLen < TWO_64
    requires RangeOnly(m1) == RangeOnly(m2)
    requires RangeOnly(m1) || (|m1.fileModData| == m1.fileModLen && |m2.fileModData| == m2.fileModLen)
    requires DataRange(m1) <= t && DataRange(m2) <= t
    ensures m1.fileModLocation == m2.fileModLocation && m1.fileModLen == m2.fileModLen
    ensures RangeOnly(m1) || m1.fileModData == m2.fileModData
  {
    hide ToBE, FromBE, RangeOnly;
    FixedWidths(m1);
    FixedWidths(m2);
    assert ToBE(m1.fileModLocation, 8) == t[..8] == ToBE(m2.fileModLocation, 8);
    assert ToBE(m1.fileModLen, 8) == t[8..16] == ToBE(m2.fileModLen, 8);
    if !RangeOnly(m1) {
      assert m1.fileModData == t[16..16 + m1.fileModLen] == m2.fileModData;
    }
  }

  // ---------------------------------------------------------- serialisation

  /** SerializeHeader: type and options at `bufOffset`. */
  method SerializeHeader(buf: array<byte>, bufOffset: nat, dm: Mod) returns (res: int)
    requires bufOffset + 4 <= buf.Length
    modifies buf
    ensures res == 4
    ensures buf[..] == Poke(old(buf[..]), bufOffset, Header(dm))
  {
    hide ToBE, Poke;
    PokeTwice(buf[..], bufOffset, ToBE(TypeCode(dm.modType), 2), ToBE(OptsCode(dm.modOpts), 2));
    var at := bufOffset;
    CopyInto(buf, at, ToBE(TypeCode(dm.modType), 2));
    at := at + 2;
    CopyInto(buf, at, ToBE(OptsCode(dm.modOpts), 2));
    return 2 * 2;
  }

  /** SerializeChangeHeader: the terminated path and the directory flag. */
  method SerializeChangeHeader(buf: array<byte>, bufOffset: nat, dm: Mod) returns (res: int)
    requires bufOffset + |dm.path| + 2 <= buf.Length && |dm.path| + 2 < TWO_31
    modifies buf
    ensures res == |dm.path| + 2
    ensures buf[..] == Poke(old(buf[..]), bufOffset, ChangeHeader(dm))
  {
    hide Poke;
    var flag: byte := if dm.directoryMod then 1 else 0;
    PokeTwice(buf[..], bufOffset, dm.path + [0], [flag]);
    var at := bufOffset;
    var size := (|dm.path| + 1) % TWO_32;
    assert size == |dm.path| + 1;
    CopyInto(buf, at, dm.path + [0]);
    at := at + size;
    CopyInto(buf, at, [flag]);
    return ToInt32(size + 1);
  }

  /** SerializeDataRange: offset, length and, unless only the range is kept, the bytes. */
  method SerializeDataRange(buf: array<byte>, bufOffset: nat, dm: Mod) returns (res: int, overrun: bool)
    requires bufOffset <= buf.Length
    requires RangeOnly(dm) || |dm.fileModData| == dm.fileModLen
    modifies buf
    ensures overrun <==> bufOffset + |DataRange(dm)| > buf.Length
    ensures !overrun ==> res == ToInt32(|DataRange(dm)|)
    ensures !overrun ==> buf[..] == Poke(old(buf[..]), bufOffset, DataRange(dm))
  {
    hide ToBE, Poke;
    ghost var numbers := ToBE(dm.fileModLocation, 8) + ToBE(dm.fileModLen, 8);
    PokeTwice(buf[..], bufOffset, ToBE(dm.fileModLocation, 8), ToBE(dm.fileModLen, 8));
    PokeTwice(buf[..], bufOffset, numbers, dm.fileModData);
    var at := bufOffset;
    if at + 2 * 8 + (if RangeOnly(dm) then 0 else dm.fileModLen) > buf.Length {
      return 0, true;
    }
    CopyInto(buf, at, ToBE(dm.fileModLocation, 8));
    at := at + 8;
    CopyInto(buf, at, ToBE(dm.fileModLen, 8));
    at := at + 8;
    if RangeOnly(dm) {
      assert numbers + [] == numbers;
      return 2 * 8, false;
    }
    CopyInto(buf, at, dm.fileModData);
    return ToInt32(2 * 8 + dm.fileModLen), false;
  }

  /** Serialize reports failure exactly when the helpers' `int` result cannot hold the data size. */
  predicate LengthOverflows(m: Mod) {
    !HeaderOnly(m) && !PathOnly(m) && ToInt32(|DataRange(m)|) < 0
  }

  /** That is the case of lengths in the upper half of the unsigned 32-bit numbers, on the circle of those. */
  lemma LengthOverflowsIs(m: Mod)
    ensures LengthOverflows(m) <==>
      && m.modType in {DataMetadata, Metadata, Data, DataMmap, Remove}
      && m.modOpts in {NoneOpt, Truncate, MsAsync, MsSync}
      && (16 + |m.fileModData|) % 0x1_0000_0000 >= 0x8000_0000
  {
    hide ToBE, ToInt32;
    NegativeInt(|DataRange(m)|);
    PlainOpts(m.modOpts);
  }

  lemma PlainOpts(o: ModOpts)
    ensures o in {NoneOpt, Truncate, MsAsync, MsSync} <==>
      o !in {Fallocate, FallocateKeepSize, PunchHoleKeepSize, CollapseRange, ZeroRange, ZeroRangeKeepSize, InsertRange}
  {
    match o
    case NoneOpt => case Truncate => case Fallocate => case FallocateKeepSize => case PunchHoleKeepSize =>
    case CollapseRange => case ZeroRange => case ZeroRangeKeepSize => case InsertRange => case MsAsync => case MsSync =>
  }

  lemma NegativeInt(x: nat)
    ensures ToInt32(x) < 0 <==> x % 0x1_0000_0000 >= 0x8000_0000
  {
  }

  /** Serialize past the header: the path of a change and, but for creations and fsyncs, its range. */
  method SerializeChange(buf: array<byte>, bufOffset: nat, dm: Mod) returns (res: int, overrun: bool)
    requires Serializable(dm) && !HeaderOnly(dm) && |dm.path| + 2 < TWO_31
    requires buf.Length == bufOffset + if dm.modType == Remove then |ChangeHeader(dm)| else |Change(dm)|
    modifies buf
    ensures overrun <==> dm.modType == Remove
    ensures !overrun ==> (res < 0 <==> LengthOverflows(dm))
    ensures !overrun ==> buf[..] == Poke(old(buf[..]), bufOffset, Change(dm))
  {
    hide ToInt32, GetSerializeSize, ChangeHeader, DataRange, Poke;
    PartSizes(dm);
    PokeTwice(buf[..], bufOffset, ChangeHeader(dm), DataRange(dm));
    res := SerializeChangeHeader(buf, bufOffset, dm);
    if dm.modType == Fsync || dm.modType == Create {
      return res, false;
    }
    res, overrun := SerializeDataRange(buf, bufOffset + res, dm);
  }

  lemma PartSizes(m: Mod)
    ensures |ChangeHeader(m)| == |m.path| + 2 && |DataRange(m)| >= 16
  {
  }

  /** What Serialize returns; an overrun is a write past the end of its own buffer. */
  datatype Serial = Written(buf: array<byte>) | TooLong | Overrun

  method Serialize(dm: Mod) returns (res: Serial, size: nat)
    requires Serializable(dm) && |dm.path| + 2 < TWO_31
    ensures res.Overrun? <==> dm.modType == Remove
    ensures res.TooLong? <==> dm.modType != Remove && LengthOverflows(dm)
    ensures res.Written? ==> fresh(res.buf) && size == |Record(dm)| && res.buf[..] == Record(dm)
  {
    hide ToBE, GetSerializeSize, Header, Change, Record, Serializable, LengthOverflows, Poke, ChangeHeader;
    RecordParts(dm);
    size := GetSerializeSize(dm);
    var buf := new byte[size];
    ghost var blank, front := buf[..], ToBE(size, 8) + Header(dm);
    PokeTwice(blank, 0, ToBE(size, 8), Header(dm));
    PokeTwice(blank, 0, front, Change(dm));
    CopyInto(buf, 0, ToBE(size, 8));
    var bufOffset := 8;

    var r := SerializeHeader(buf, bufOffset, dm);
    bufOffset := bufOffset + r;
    assert buf[..] == Poke(blank, 0, front);

    if dm.modType == Checkpoint || dm.modType == Sync {
      assert front + [] == front;
      PokeAll(blank, Record(dm));
      return Written(buf), size;
    }
    var overrun;
    r, overrun := SerializeChange(buf, bufOffset, dm);
    if overrun {
      return Overrun, size;
    }
    if r < 0 {
      return TooLong, size;
    }
    PokeAll(blank, Record(dm));
    return Written(buf), size;
  }

  lemma PokeAll(memory: seq<byte>, data: seq<byte>)
    requires |memory| == |data|
    ensures Poke(memory, 0, data) == data
  {
  }

  lemma RecordParts(m: Mod)
    requires Serializable(m)
    ensures ToBE(GetSerializeSize(m), 8) + Header(m) + Change(m) == Record(m)
    ensures HeaderOnly(m) ==> Change(m) == [] && !LengthOverflows(m)
    ensures m.modType != Remove ==> GetSerializeSize(m) == |Record(m)| == 12 + |Change(m)|
    ensures m.modType == Remove ==> GetSerializeSize(m) == 12 + |ChangeHeader(m)|
  {
    hide ToBE, GetSerializeSize, DataRange, ChangeHeader;
    SizeAgreement(m);
    if m.modType == Remove {
      RemovalSize(m);
    }
  }

  lemma RemovalSize(m: Mod)
    requires m.modType == Remove
    ensures GetSerializeSize(m) == 12 + |ChangeHeader(m)|
  {
  }

  /** The C string in a character array. */
  function CString(tmp: seq<byte>): seq<byte> {
    if tmp == [] || tmp[0] == 0 then [] else [tmp[0]] + CString(tmp[1..])
  }

  lemma {:induction false} CStringStops(text: seq<byte>, rest: seq<byte>)
    requires NulFree(text) && (rest == [] || rest[0] == 0)
    ensures CString(text + rest) == text
  {
    if text == [] {
      assert text + rest == rest;
    } else {
      assert text[0] in text && (text + rest)[1..] == text[1..] + rest;
      CStringStops(text[1..], rest);
    }
  }

  const TMP_SIZE: nat := 128

  /** A cleared buffer into which a piece of a text was gathered. */
  predicate Gathers(tmp: seq<byte>, text: seq<byte>, from: nat, to: nat) {
    && from <= to <= |text| && to - from <= |tmp|
    && forall i :: 0 <= i < |tmp| ==> tmp[i] == if i < to - from then text[from + i] else 0
  }

  lemma GatheredPiece(tmp: seq<byte>, text: seq<byte>, from: nat, to: nat)
    requires NulFree(text) && Gathers(tmp, text, from, to)
    ensures text[..from] + CString(tmp) == text[..to]
  {
    hide CString;
    var piece := text[from..to];
    forall c | c in piece
      ensures c in text
    {
    }
    CStringStops(piece, tmp[to - from..]);
    assert tmp == piece + tmp[to - from..];
  }

  lemma TextAt(data: seq<byte>, start: nat, text: seq<byte>)
    requires NulFree(text) && start <= |data| && text + [0] <= data[start..]
    ensures start + |text| < |data| && data[start + |text|] == 0
    ensures forall i :: 0 <= i < |text| ==> data[start + i] == text[i] != 0
  {
    var t := data[start..];
    FirstNul(t, text);
    assert t[|text|] == data[start + |text|];
    forall i | 0 <= i < |text|
      ensures data[start + i] == text[i] != 0
    {
      assert t[i] == data[start + i] && t[i] == (text + [0])[i];
    }
  }

  /** The path loop of Deserialize: characters gathered 127 at a time in a cleared buffer. */
  method ReadPath(data: array<byte>, start: nat, ghost text: seq<byte>) returns (path: seq<byte>, next: nat)
    requires NulFree(text) && start <= data.Length && text + [0] <= data[start..]
    ensures path == text && next == start + |text| + 1
  {
    hide CString, NulFree;
    TextAt(data[..], start, text);
    assert data[..][start..] == data[start..];
    var tmp := new byte[TMP_SIZE](_ => 0);
    var charsRead := 0;
    var p := start;
    path := [];
    while data[p] != 0
      invariant start <= p <= start + |text| < data.Length
      invariant charsRead < TMP_SIZE - 1 && charsRead <= p - start
      invariant path == text[..p - start - charsRead]
      invariant Gathers(tmp[..], text, p - start - charsRead, p - start)
      decreases start + |text| - p
    {
      tmp[charsRead] := data[p];
      charsRead := charsRead + 1;
      p := p + 1;
      if charsRead == TMP_SIZE - 1 {
        GatheredPiece(tmp[..], text, p - start - charsRead, p - start);
        path := path + CString(tmp[..]);
        charsRead := 0;
        forall i | 0 <= i < TMP_SIZE {
          tmp[i] := 0;
        }
      }
    }
    GatheredPiece(tmp[..], text, p - start - charsRead, p - start);
    path := path + CString(tmp[..]);
    assert text[..|text|] == text;
    next := p + 1;
  }

  /** The two integers of a range; the bytes that follow them, if any, are the data. */
  method ReadRange(data: array<byte>, at: nat, ghost m: Mod) returns (location: nat, length: nat)
    requires at <= data.Length && DataRange(m) <= data[at..]
    requires m.fileModLocation < TWO_64 && m.fileModLen < TWO_64
    ensures location == m.fileModLocation && length == m.fileModLen
    ensures !RangeOnly(m) && |m.fileModData| == length ==>
      at + 16 + length <= data.Length && data[at + 16..at + 16 + length] == m.fileModData
  {
    hide ToBE, FromBE;
    FixedWidths(m);
    ghost var t := data[at..];
    assert t[..8] == ToBE(m.fileModLocation, 8) && t[8..16] == ToBE(m.fileModLen, 8);
    assert t[..8] == data[at..at + 8] && t[8..16] == data[at + 8..at + 16];
    location := FromBE(data[at..at + 8]);
    length := FromBE(data[at + 8..at + 16]);
    if !RangeOnly(m) && |m.fileModData| == length {
      assert m.fileModData == t[16..16 + length] == data[at + 16..at + 16 + length];
    }
  }

  class DiskMod {
    var path: seq<byte>
    var modType: ModType
    var modOpts: ModOpts
    var postModStats: Stat
    var directoryMod: bool
    var fileModData: seq<byte>
    var fileModLocation: nat
    var fileModLen: nat
    var directoryAddedEntry: seq<byte>

    function Value(): Mod
      reads this
    {
      Mod(path, modType, modOpts, postModStats, directoryMod, fileModData, fileModLocation, fileModLen,
          directoryAddedEntry)
    }

    constructor ()
      ensures Value() == EMPTY_MOD
    {
      new;
      Reset();
    }

    method Reset()
      modifies this
      ensures Value() == EMPTY_MOD
      ensures Value() == Mod([], Create, NoneOpt, Stat(0, 0, false), false, [], 0, 0, [])
    {
      path := [];
      modType := Create;
      modOpts := NoneOpt;
      postModStats := Stat(0, 0, false);
      directoryMod := false;
      fileModData := [];
      fileModLocation := 0;
      fileModLen := 0;
      directoryAddedEntry := [];
    }

    /** Deserialize from the range on: its two integers and the data, if the change carries any. */
    method DeserializeRange(data: array<byte>, at: nat, ghost m: Mod)
      requires at <= data.Length && DataRange(m) <= data[at..]
      requires Encodable(m) && Canonical(m) == m && !HeaderOnly(m) && !PathOnly(m)
      requires Value() == EMPTY_MOD.(path := m.path, modType := m.modType, modOpts := m.modOpts,
                                     directoryMod := m.directoryMod)
      modifies this
      ensures Value() == m
    {
      hide DataRange, GetSerializeSize;
      var dataPtr := at;
      fileModLocation, fileModLen := ReadRange(data, dataPtr, m);
      dataPtr := dataPtr + 16;
      if RangeOnly(Value()) {
        return;
      }
      if fileModLen > 0 {
        fileModData := data[dataPtr..dataPtr + fileModLen];
      }
    }

    /** Deserialize up to the options. */
    method DeserializeHeader(data: array<byte>, at: nat, ghost m: Mod)
      requires at + 4 <= data.Length && data[at..at + 2] + data[at + 2..at + 4] == Header(m)
      requires Value() == EMPTY_MOD
      modifies this
      ensures Value() == EMPTY_MOD.(modType := m.modType, modOpts := m.modOpts)
    {
      hide ToBE, FromBE, Header;
      FixedWidths(m);
      assert data[at..at + 2] == Header(m)[..2] && data[at + 2..at + 4] == Header(m)[2..];
      modType := TypeOfCode(FromBE(data[at..at + 2]));
      modOpts := OptsOfCode(FromBE(data[at + 2..at + 4]));
    }

    /** Deserialize past the header. */
    method DeserializeChange(data: array<byte>, at: nat, ghost m: Mod)
      requires at <= data.Length && Change(m) <= data[at..]
      requires Encodable(m) && Canonical(m) == m && !HeaderOnly(m)
      requires Value() == EMPTY_MOD.(modType := m.modType, modOpts := m.modOpts)
      modifies this
      ensures Value() == m
    {
      hide Change, DataRange, GetSerializeSize;
      ChangeParts(data[at..], m);
      var dataPtr;
      path, dataPtr := ReadPath(data, at, m.path);
      assert data[dataPtr] == data[at..][|m.path| + 1];
      directoryMod := data[dataPtr] != 0;
      dataPtr := dataPtr + 1;
      if modType == Fsync || modType == Create {
        return;
      }
      assert data[dataPtr..] == data[at..][|m.path| + 2..];
      DeserializeRange(data, dataPtr, m);
    }

    /** Reads the change the bytes encode, whatever this object held; the size field is skipped. */
    method Deserialize(data: array<byte>) returns (res: int)
      requires exists m :: Decodes(data[..], m)
      modifies this
      ensures res == 0 && Decodes(data[..], Value())
    {
      hide Header, Change, Encodable;
      ghost var m :| Decodes(data[..], m);
      BodyStart(data[..][8..], m);
      assert data[..][8..] == data[8..];
      Reset();

      var dataPtr := 8;
      assert data[8..10] + data[10..12] == data[8..][..4];
      DeserializeHeader(data, dataPtr, m);
      dataPtr := dataPtr + 2 * 2;
      if modType == Checkpoint || modType == Sync {
        assert Value() == m;
        return 0;
      }
      assert data[dataPtr..] == data[8..][4..];
      DeserializeChange(data, dataPtr, m);
      return 0;
    }
  }
}
