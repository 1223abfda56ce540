/** The change log: written record by record, read back by length prefix, grouped by checkpoint. */
module ChangeLog {
  import opened Bytes
  import opened Posix
  import opened DiskMods

  function Stream(ms: seq<Mod>): seq<byte> {
    if ms == [] then [] else Record(ms[0]) + Stream(ms[1..])
  }

  function CanonicalAll(ms: seq<Mod>): (r: seq<Mod>)
    ensures |r| == |ms|
  {
    seq(|ms|, i requires 0 <= i < |ms| => Canonical(ms[i]))
  }

  predicate Loggable(m: Mod) {
    Serializable(m) && |m.path| + 2 < TWO_31
  }

  lemma {:induction false} StreamAppend(ms: seq<Mod>, m: Mod)
    ensures Stream(ms + [m]) == Stream(ms) + Record(m)
  {
    hide Record;
    if ms == [] {
      assert [m][1..] == [];
    } else {
      assert (ms + [m])[1..] == ms[1..] + [m];
      StreamAppend(ms[1..], m);
    }
  }

  lemma {:induction false} StreamConcat(a: seq<Mod>, b: seq<Mod>)
    ensures Stream(a + b) == Stream(a) + Stream(b)
  {
    hide Record;
    if a == [] {
      assert a + b == b;
    } else {
      assert (a + b)[1..] == a[1..] + b;
      StreamConcat(a[1..], b);
    }
  }

  // ---------------------------------------------------------------- writing

  /** WriteWhole: retried until every byte is out; after an error some prefix of them is. */
  method WriteWhole(fd: File, size: nat, data: array<byte>) returns (res: int)
    requires size == data.Length && fd.pos == |fd.content|
    modifies fd`content, fd`pos, fd`stalls
    ensures res <= 0 && (!fd.faulty ==> res == 0)
    ensures fd.pos == |fd.content|
    ensures res == 0 ==> fd.content == old(fd.content) + data[..]
    ensures exists n: nat | n <= size :: fd.content == old(fd.content) + data[..n]
  {
    hide Splice;
    var written := 0;
    assert fd.content == old(fd.content) + data[..0];
    while written < size
      invariant written <= size && fd.pos == |fd.content|
      invariant fd.content == old(fd.content) + data[..written]
      decreases size - written, fd.stalls
    {
      ghost var before := fd.content;
      var r := fd.Write(data[written..size]);
      if r < 0 {
        assert fd.content == old(fd.content) + data[..written];
        return r;
      }
      SliceOfSlice(data[..], written, size, r);
      SpliceAtEnd(before, data[written..written + r]);
      SliceConcat(data[..], 0, written, written + r);
      written := written + r;
    }
    assert data[..written] == data[..];
    return 0;
  }

  /** A change Serialize writes in full. */
  predicate Writable(m: Mod) {
    m.modType != Remove && !LengthOverflows(m)
  }

  /** RecordCmFsOps::Serialize over the recorded changes; on an overrun it need not return. */
  method SerializeAll(fd: File, mods: seq<Mod>) returns (res: int, overrun: bool)
    requires fd.pos == |fd.content|
    requires forall m <- mods :: Loggable(m)
    modifies fd`content, fd`pos, fd`stalls
    ensures (res == 0 && !overrun) || res == -1
    ensures fd.pos == |fd.content|
    ensures res == 0 ==> fd.content == old(fd.content) + Stream(mods)
    ensures res == 0 ==> forall m <- mods :: Writable(m)
    ensures old(fd.content) <= fd.content <= old(fd.content) + Stream(mods)
    ensures overrun || (!fd.faulty && res != 0) ==> exists i | 0 <= i < |mods| ::
      && !Writable(mods[i]) && (forall j | 0 <= j < i :: Writable(mods[j]))
      && (overrun <==> mods[i].modType == Remove)
  {
    hide Record, LengthOverflows, Loggable, Serializable, Writable, Stream;
    ghost var before := fd.content;
    NoStream(mods);
    for i := 0 to |mods|
      invariant fd.pos == |fd.content|
      invariant fd.content == before + Stream(mods[..i])
      invariant forall j | 0 <= j < i :: Writable(mods[j])
    {
      StreamStep(mods, i);
      StreamPrefix(mods, i);
      StreamPrefix(mods, i + 1);
      assert Loggable(mods[i]);
      var serial, size := SerializeOne(mods[i]);
      if !serial.Written? {
        assert !Writable(mods[i]) && forall j | 0 <= j < i :: Writable(mods[j]);
        return -1, serial.Overrun?;
      }
      var r := WriteWhole(fd, size, serial.buf);
      if r < 0 {
        return -1, false;
      }
    }
    assert mods[..|mods|] == mods;
    return 0, false;
  }

  lemma StreamStep(mods: seq<Mod>, i: nat)
    requires i < |mods|
    ensures Stream(mods[..i + 1]) == Stream(mods[..i]) + Record(mods[i])
  {
    hide Record, Stream;
    var front := mods[..i];
    assert mods[..i + 1] == front + [mods[i]];
    StreamAppend(front, mods[i]);
  }

  lemma StreamPrefix(mods: seq<Mod>, i: nat)
    requires i <= |mods|
    ensures Stream(mods[..i]) <= Stream(mods)
  {
    hide Record, Stream;
    StreamConcat(mods[..i], mods[i..]);
    assert mods[..i] + mods[i..] == mods;
  }

  lemma NoStream(mods: seq<Mod>)
    ensures Stream(mods[..0]) == []
  {
  }

  method SerializeOne(m: Mod) returns (serial: Serial, size: nat)
    requires Loggable(m)
    ensures serial.Overrun? <==> m.modType == Remove
    ensures serial.Written? <==> Writable(m)
    ensures serial.Written? ==>
      fresh(serial.buf) && serial.buf.Length == size && serial.buf[..] == Record(m)
  {
    hide Record;
    serial, size := Serialize(m);
  }

  // --------------------------------------------------------------- grouping

  /** One change appended to the groups: a checkpoint opens a new group and is not kept. */
  function AppendMod(groups: seq<seq<Mod>>, m: Mod): seq<seq<Mod>> {
    if m.modType == Checkpoint then groups + [[]]
    else if groups == [] then [[m]]
    else groups[..|groups| - 1] + [groups[|groups| - 1] + [m]]
  }

  function AppendAll(groups: seq<seq<Mod>>, ms: seq<Mod>): seq<seq<Mod>> {
    if ms == [] then groups else AppendMod(AppendAll(groups, ms[..|ms| - 1]), ms[|ms| - 1])
  }

  function Flatten(groups: seq<seq<Mod>>): seq<Mod> {
    if groups == [] then [] else Flatten(groups[..|groups| - 1]) + groups[|groups| - 1]
  }

  function NonCheckpoints(ms: seq<Mod>): seq<Mod> {
    if ms == [] then []
    else NonCheckpoints(ms[..|ms| - 1]) + (if ms[|ms| - 1].modType == Checkpoint then [] else [ms[|ms| - 1]])
  }

  function CheckpointCount(ms: seq<Mod>): nat {
    if ms == [] then 0
    else CheckpointCount(ms[..|ms| - 1]) + (if ms[|ms| - 1].modType == Checkpoint then 1 else 0)
  }

  /** The changes since the last checkpoint, or since the start. */
  function Segment(ms: seq<Mod>): seq<Mod> {
    if ms == [] || ms[|ms| - 1].modType == Checkpoint then []
    else Segment(ms[..|ms| - 1]) + [ms[|ms| - 1]]
  }

  /** Grouping loses nothing but the checkpoints and keeps the order. */
  lemma {:induction false} GroupsKeepAll(groups: seq<seq<Mod>>, ms: seq<Mod>)
    ensures Flatten(AppendAll(groups, ms)) == Flatten(groups) + NonCheckpoints(ms)
  {
    if ms != [] {
      var last := ms[|ms| - 1];
      GroupsKeepAll(groups, ms[..|ms| - 1]);
      var gs := AppendAll(groups, ms[..|ms| - 1]);
      if last.modType == Checkpoint {
        assert (gs + [[]])[..|gs|] == gs;
      } else if gs == [] {
        assert Flatten([[last]]) == [last];
      } else {
        var front := gs[..|gs| - 1];
        var longer := front + [gs[|gs| - 1] + [last]];
        assert longer[..|longer| - 1] == front;
        assert Flatten(longer) == Flatten(gs) + [last];
      }
    }
  }

  /** One group a checkpoint, and one more if something precedes the first. */
  lemma {:induction false} GroupCount(ms: seq<Mod>)
    ensures |AppendAll([], ms)|
         == CheckpointCount(ms) + if ms != [] && ms[0].modType != Checkpoint then 1 else 0
  {
    if ms != [] {
      GroupCount(ms[..|ms| - 1]);
    }
  }

  lemma {:induction false} LastGroup(ms: seq<Mod>)
    requires ms != []
    ensures AppendAll([], ms) != [] && AppendAll([], ms)[|AppendAll([], ms)| - 1] == Segment(ms)
  {
    if |ms| > 1 {
      LastGroup(ms[..|ms| - 1]);
    } else {
      assert ms[..0] == [];
    }
  }

  lemma {:induction false} GroupsSplit(before: seq<Mod>, mark: Mod, after: seq<Mod>)
    requires mark.modType == Checkpoint && forall m <- after :: m.modType != Checkpoint
    ensures AppendAll([], before + [mark] + after) == AppendAll([], before) + [after]
  {
    var log := before + [mark] + after;
    assert log[|log| - 1] == if after == [] then mark else after[|after| - 1];
    if after == [] {
      assert log[..|log| - 1] == before;
    } else {
      var shorter := after[..|after| - 1];
      assert log[..|log| - 1] == before + [mark] + shorter;
      GroupsSplit(before, mark, shorter);
      assert shorter + [after[|after| - 1]] == after;
    }
  }

  /**
   The group the checker takes, the one before the last, exists if and only if something
   precedes the last checkpoint; it then is what lies between that and the checkpoint before.
   */
  lemma SelectedGroup(before: seq<Mod>, mark: Mod, after: seq<Mod>)
    requires mark.modType == Checkpoint && forall m <- after :: m.modType != Checkpoint
    ensures var groups := AppendAll([], before + [mark] + after);
      && (|groups| >= 2 <==> before != [])
      && (|groups| >= 2 ==> groups[|groups| - 2] == Segment(before))
  {
    GroupsSplit(before, mark, after);
    if before != [] {
      LastGroup(before);
    }
  }

  /** The same, told by the two checkpoints: `b` is what lies between the last and the one before it, if any. */
  lemma SelectedBetween(a: seq<Mod>, b: seq<Mod>, mark: Mod, after: seq<Mod>)
    requires a == [] || a[|a| - 1].modType == Checkpoint
    requires mark.modType == Checkpoint && forall m | m in b || m in after :: m.modType != Checkpoint
    ensures var groups := AppendAll([], a + b + [mark] + after);
      && (|groups| >= 2 <==> a + b != [])
      && (|groups| >= 2 ==> groups[|groups| - 2] == b)
  {
    hide AppendAll;
    SegmentIs(a, b);
    SelectedGroup(a + b, mark, after);
  }

  lemma {:induction false} SegmentIs(a: seq<Mod>, b: seq<Mod>)
    requires (a == [] || a[|a| - 1].modType == Checkpoint) && forall m <- b :: m.modType != Checkpoint
    ensures Segment(a + b) == b
  {
    if b == [] {
      assert a + b == a;
    } else {
      var front, last := b[..|b| - 1], b[|b| - 1];
      assert last in b && forall m <- front :: m in b;
      assert (a + b)[..|a + b| - 1] == a + front;
      SegmentIs(a, front);
    }
  }

  // ---------------------------------------------------------------- reading

  /**
   A size field read short is completed with whatever the buffer held: it is the size written for
   every such content if and only if all 8 bytes were read.
   */
  lemma HeaderReadExact(size: nat, got: nat)
    requires size < TWO_64 && got <= 8
    ensures (forall stale: seq<byte> | |stale| == 8 :: FromBE(ToBE(size, 8)[..got] + stale[got..]) == size)
       <==> got == 8
  {
    hide ToBE, FromBE;
    Pow256Values();
    BigEndianRoundTrip(size, 8);
    var s := ToBE(size, 8);
    if got == 8 {
      forall stale: seq<byte> | |stale| == 8
        ensures FromBE(s[..got] + stale[got..]) == size
      {
        assert s[..got] + stale[got..] == s;
      }
    } else {
      var stale := s[7 := if s[7] == 0 then 1 else 0];
      assert s[..got] + stale[got..] == stale;
      LastByteCounts(s, stale);
      assert |stale| == 8 && FromBE(s[..got] + stale[got..]) != size;
    }
  }

  lemma LastByteCounts(a: seq<byte>, b: seq<byte>)
    requires |a| == |b| == 8 && a[..7] == b[..7] && a[7] != b[7]
    ensures FromBE(a) != FromBE(b)
  {
    assert FromBE(a) == 256 * FromBE(a[..7]) + a[7];
    assert FromBE(b) == 256 * FromBE(b[..7]) + b[7];
  }

  /**
   A size field that breaks off is completed with whatever the buffer held. It reads as the size of
   something, whatever that was, if and only if one of its bytes is not 0.
   */
  lemma CutSizeFieldExact(tail: seq<byte>)
    requires 0 < |tail| < 8
    ensures (forall stale: seq<byte> | |stale| == 8 - |tail| :: FromBE(tail + stale) > 8)
       <==> exists b <- tail :: b != 0
  {
    if b :| b in tail && b != 0 {
      forall stale: seq<byte> | |stale| == 8 - |tail|
        ensures FromBE(tail + stale) > 8
      {
        NonZeroField(tail, stale);
      }
    } else {
      var stale := Zeros(8 - |tail|);
      assert |stale| == 8 - |tail|;
      ZeroField(tail + stale);
    }
  }

  lemma NonZeroField(tail: seq<byte>, stale: seq<byte>)
    requires (exists b <- tail :: b != 0) && |tail| < 8 && |tail + stale| == 8
    ensures FromBE(tail + stale) > 8
  {
    hide FromBE;
    var field := tail + stale;
    var i :| 0 <= i < |tail| && tail[i] != 0;
    assert field[..7][i] != 0;
    NonZero(field[..7], i);
    FieldEnd(field);
  }

  lemma FieldEnd(field: seq<byte>)
    requires field != []
    ensures FromBE(field) == 256 * FromBE(field[..|field| - 1]) + field[|field| - 1]
  {
  }

  lemma {:induction false} NonZero(s: seq<byte>, i: nat)
    requires i < |s| && s[i] != 0
    ensures FromBE(s) >= 1
  {
    if i < |s| - 1 {
      NonZero(s[..|s| - 1], i);
    }
  }

  lemma {:induction false} ZeroField(s: seq<byte>)
    requires forall b <- s :: b == 0
    ensures FromBE(s) == 0
  {
    if s != [] {
      var front := s[..|s| - 1];
      assert s[|s| - 1] in s;
      forall b | b in front
        ensures b == 0
      {
        assert b in s;
      }
      ZeroField(front);
    }
  }

  /** A record that was cut off. */
  ghost predicate CutRecord(tail: seq<byte>) {
    exists m :: Encodable(m) && tail < Record(m)
  }

  lemma RecordSize(m: Mod)
    requires Encodable(m)
    ensures |Record(m)| == GetSerializeSize(m) >= 8
  {
    SizeAgreement(m);
  }

  lemma SizeField(m: Mod, s: seq<byte>)
    requires Encodable(m) && |s| >= 8 && (Record(m) <= s || s < Record(m))
    ensures FromBE(s[..8]) == GetSerializeSize(m) == |Record(m)| > 8
  {
    hide ToBE, FromBE, Change, Header, GetSerializeSize;
    RecordParts(m);
    Pow256Values();
    BigEndianRoundTrip(GetSerializeSize(m), 8);
    assert s[..8] == Record(m)[..8] == ToBE(GetSerializeSize(m), 8);
  }

  /** The record the rest of the log begins with, whole or not. */
  lemma NextRecord(ms: seq<Mod>, k: nat, tail: seq<byte>) returns (m: Mod)
    requires k <= |ms| && forall m <- ms :: Encodable(m)
    requires |tail| < 8 || CutRecord(tail)
    ensures var rest := Stream(ms[k..]) + tail;
      && (k == |ms| ==> rest == tail)
      && (k < |ms| ==> |rest| >= 8)
      && (|rest| < 8 || (Encodable(m) && (Record(m) <= rest || rest < Record(m))))
    ensures k < |ms| ==> m == ms[k] && Stream(ms[k..]) != []
    ensures k < |ms| ==> Stream(ms[k..]) + tail == Record(m) + (Stream(ms[k + 1..]) + tail)
    ensures k == |ms| && |tail| >= 8 ==> tail < Record(m)
  {
    hide Record, Encodable;
    if k < |ms| {
      m := ms[k];
      assert Encodable(ms[k]);
      assert ms[k..][1..] == ms[k + 1..];
      RecordSize(m);
    } else if |tail| >= 8 {
      m :| Encodable(m) && tail < Record(m);
    } else {
      m := EMPTY_MOD;
    }
  }

  /** One read, behind what is already there. */
  method ReadMore(fd: File, data: array<byte>, readData: nat, ghost start: nat, ghost field: seq<byte>)
    returns (res: int)
    requires 8 == |field| <= readData < data.Length && fd.pos == start + (readData - 8) <= |fd.content|
    requires data[..readData] == field + fd.content[start..fd.pos]
    modifies data, fd`pos
    ensures -1 <= res <= data.Length - readData
    ensures fd.pos == old(fd.pos) + Max(res, 0) <= |fd.content|
    ensures res >= 0 ==> data[..readData + res] == field + fd.content[start..fd.pos]
    ensures res == 0 ==> fd.pos == |fd.content|
    ensures !fd.faulty ==> res >= 0
  {
    hide Poke;
    ghost var was, at := data[..], fd.pos;
    assert was[..readData] == data[..readData];
    res := fd.Read(data, readData, data.Length - readData);
    if res >= 0 {
      PokeFront(was, readData, fd.content[at..fd.pos]);
      SliceConcat(fd.content, start, at, fd.pos);
      assert data[..readData + res] == data[..][..readData + res];
    }
  }

  /** The inner read loop: `data` already holds the size field, the rest comes from the file position on. */
  method ReadRest(fd: File, data: array<byte>) returns (res: int)
    requires fd.pos <= |fd.content| && data.Length >= 8
    modifies data, fd`pos
    ensures res == 0 || res == -1
    ensures old(fd.pos) <= fd.pos <= |fd.content|
    ensures res == 0 ==> fd.pos == old(fd.pos) + data.Length - 8
    ensures res == 0 ==> data[..] == old(data[..8]) + fd.content[old(fd.pos)..fd.pos]
    ensures !fd.faulty ==> (res == 0 <==> old(fd.pos) + data.Length - 8 <= |fd.content|)
  {
    ghost var start, field := fd.pos, data[..8];
    var readData := 8;
    assert fd.content[start..fd.pos] == [] && field + [] == field;
    while readData < data.Length
      invariant 8 <= readData <= data.Length && fd.pos == start + (readData - 8) <= |fd.content|
      invariant data[..readData] == field + fd.content[start..fd.pos]
      decreases data.Length - readData
    {
      var r := ReadMore(fd, data, readData, start, field);
      if r <= 0 {
        return -1;
      }
      readData := readData + r;
    }
    assert data[..readData] == data[..];
    return 0;
  }

  /** The read of a size field, into a buffer that is not cleared. */
  method ReadField(fd: File) returns (res: int, buf: array<byte>)
    requires fd.pos <= |fd.content| && 8 <= fd.atom
    modifies fd`pos
    ensures fresh(buf) && buf.Length == 8 && -1 <= res <= 8
    ensures fd.pos == old(fd.pos) + Max(res, 0) <= |fd.content|
    ensures res >= 0 ==> res == Min(8, |old(fd.content[fd.pos..])|)
    ensures res > 0 && |old(fd.content[fd.pos..])| >= 8 ==> buf[..] == fd.content[old(fd.pos)..fd.pos]
    ensures res > 0 && |old(fd.content[fd.pos..])| < 8 && FromBE(buf[..]) <= 8 ==>
      forall b <- old(fd.content[fd.pos..]) :: b == 0
    ensures !fd.faulty ==> res >= 0
  {
    hide FromBE, Poke;
    ghost var start := fd.pos;
    buf := new byte[8];
    ghost var was := buf[..];
    res := fd.Read(buf, 0, 8);
    if res > 0 {
      FieldRead(was, fd.content, start, fd.pos);
    }
  }

  /** A buffer for a whole record, with its size field in it. */
  method NewChunk(size: nat, field: array<byte>) returns (data: array<byte>)
    requires field.Length == 8 <= size
    ensures fresh(data) && data.Length == size && data[..8] == field[..]
  {
    hide Poke;
    data := new byte[size];
    PokeFront(data[..], 0, field[..]);
    assert data[..][..0] + field[..] == field[..];
    CopyInto(data, 0, field[..]);
    assert data[..8] == data[..][..8];
  }

  /**
   The size field and the rest of one record. The result is 0 at the end of the file, 1 when the
   whole record is in `data`, and negative when it cannot be read or is cut off. It is `wild` when a
   size field that breaks off reads as a size of at most 8: the memcpy or the decoding then leaves the
   buffer.
   */
  method ReadChange(fd: File, ghost m: Mod) returns (res: int, data: array<byte>, wild: bool)
    requires fd.pos <= |fd.content| && 8 <= fd.atom
    requires var rest := fd.content[fd.pos..];
      |rest| < 8 || (Encodable(m) && (Record(m) <= rest || rest < Record(m)))
    modifies fd`pos
    ensures res <= 1 && old(fd.pos) <= fd.pos <= |fd.content| && fresh(data)
    ensures wild ==> res == 1 && 0 < |old(fd.content[fd.pos..])| < 8 && forall b <- old(fd.content[fd.pos..]) :: b == 0
    ensures res == 0 ==> old(fd.pos) == |fd.content|
    ensures res == 1 && !wild ==> |old(fd.content[fd.pos..])| >= 8 && data[..] == Record(m)
    ensures res == 1 && !wild ==> fd.content[old(fd.pos)..] == Record(m) + fd.content[fd.pos..]
    ensures res == 1 ==> fd.pos > old(fd.pos)
    ensures !fd.faulty ==> (res == 0 <==> old(fd.pos) == |fd.content|)
    ensures !fd.faulty && |old(fd.content[fd.pos..])| >= 8 ==> (res < 0 <==> !(Record(m) <= old(fd.content[fd.pos..])))
  {
    hide Record, Encodable, FromBE, GetSerializeSize, Poke;
    ghost var start, rest := fd.pos, fd.content[fd.pos..];
    var readRes, buf := ReadField(fd);
    data := buf;
    if readRes <= 0 {
      return readRes, data, false;
    }
    var nextChunkSize := FromBE(buf[..]);
    if |rest| >= 8 {
      SizeField(m, rest);
      SliceOfSlice(fd.content, start, |fd.content|, 8);
      assert fd.content[start..|fd.content|] == rest;
    }
    if nextChunkSize <= 8 {
      return 1, data, true;
    }

    data := NewChunk(nextChunkSize, buf);
    var r := ReadRest(fd, data);
    if r < 0 {
      return -1, data, false;
    }
    SliceConcat(fd.content, start, start + 8, fd.pos);
    WholeRecord(fd.content, start, fd.pos, Record(m));
    return 1, data, false;
  }

  /** The buffer after the read of a size field: the bytes there are, then what it held. */
  lemma FieldRead(was: seq<byte>, content: seq<byte>, start: nat, end: nat)
    requires |was| == 8 && start <= end <= |content| && end - start == Min(8, |content| - start)
    ensures var rest, field := content[start..], Poke(was, 0, content[start..end]);
      && (|rest| >= 8 ==> field == rest[..8] == content[start..end])
      && (0 < |rest| < 8 && FromBE(field) <= 8 ==> forall b <- rest :: b == 0)
  {
    hide FromBE, Poke;
    var rest, got := content[start..], content[start..end];
    PokeFront(was, 0, got);
    var field := Poke(was, 0, got);
    assert was[..0] + got == got;
    if |rest| >= 8 {
      assert field[..8] == field && got == rest[..8];
    } else if 0 < |rest| {
      assert got == rest && field == rest + field[|rest|..];
      if exists b <- rest :: b != 0 {
        NonZeroField(rest, field[|rest|..]);
      }
    }
  }

  lemma WholeRecord(content: seq<byte>, start: nat, end: nat, record: seq<byte>)
    requires start <= end <= |content| && end - start == |record|
    requires record <= content[start..] || content[start..] < record
    ensures content[start..end] == record && content[start..] == record + content[end..]
  {
    assert content[start..] == content[start..end] + content[end..];
  }

  lemma NothingLoaded(groups: seq<seq<Mod>>, ms: seq<Mod>)
    ensures AppendAll(groups, CanonicalAll(ms[..0])) == groups && ms[0..] == ms
  {
    assert CanonicalAll(ms[..0]) == [];
  }

  lemma OneMoreLoaded(groups: seq<seq<Mod>>, ms: seq<Mod>, k: nat)
    requires k < |ms|
    ensures AppendMod(AppendAll(groups, CanonicalAll(ms[..k])), Canonical(ms[k]))
         == AppendAll(groups, CanonicalAll(ms[..k + 1]))
  {
    hide Canonical, AppendMod;
    var all := CanonicalAll(ms[..k + 1]);
    assert all[..k] == CanonicalAll(ms[..k]) && all[k] == Canonical(ms[k]);
  }

  class Tester {
    var mods: seq<seq<Mod>>

    constructor ()
      ensures mods == []
    {
      mods := [];
    }

    /** The change in a whole record, appended to the groups. */
    method AddRecord(data: array<byte>, ghost m: Mod)
      requires Encodable(m) && data[..] == Record(m)
      modifies this
      ensures mods == AppendMod(old(mods), Canonical(m))
    {
      hide Record, Encodable, Decodes;
      RecordDecodes(m, []);
      assert Record(m) + [] == data[..];
      var dm := new DiskMod();
      assert Decodes(data[..], Canonical(m));
      var _ := dm.Deserialize(data);
      var mod := dm.Value();
      DecodesUniquely(data[..], mod, Canonical(m));
      if mod.modType == Checkpoint {
        mods := mods + [[]];
      } else {
        if mods == [] {
          mods := mods + [[]];
        }
        ghost var groups := mods;
        mods := mods[|mods| - 1 := mods[|mods| - 1] + [mod]];
        assert mods == groups[..|groups| - 1] + [groups[|groups| - 1] + [mod]];
        assert old(mods) == [] ==> groups[0] + [mod] == [mod];
      }
    }

    /**
     Reads the log of `ms`, cut off in `tail`. Every whole record is kept, whatever happens; a clean end
     is reported exactly when there is one, read errors aside. A tail shorter than a size field makes
     the call `wild` or fail, depending on what the buffer held, and never wild unless it is all zeros.
     */
    method GetChangeData(fd: File, ghost ms: seq<Mod>, ghost tail: seq<byte>) returns (res: int, wild: bool)
      requires forall m <- ms :: Encodable(m)
      requires |tail| < 8 || CutRecord(tail)
      requires fd.pos <= |fd.content| && fd.content[fd.pos..] == Stream(ms) + tail
      requires 8 <= fd.atom
      modifies this, fd`pos
      ensures res <= 0 && fd.pos <= |fd.content|
      ensures wild ==> res < 0 && 0 < |tail| < 8 && forall b <- tail :: b == 0
      ensures res == 0 ==> tail == [] && mods == AppendAll(old(mods), CanonicalAll(ms))
      ensures exists k | 0 <= k <= |ms| :: mods == AppendAll(old(mods), CanonicalAll(ms[..k]))
      ensures !fd.faulty ==> (res == 0 <==> tail == []) && mods == AppendAll(old(mods), CanonicalAll(ms))
    {
      hide Record, Encodable, Canonical, FromBE, Stream, AppendAll, AppendMod, CanonicalAll;
      ghost var k := 0;
      NothingLoaded(mods, ms);
      while true
        invariant k <= |ms| && fd.pos <= |fd.content|
        invariant fd.content[fd.pos..] == Stream(ms[k..]) + tail
        invariant mods == AppendAll(old(mods), CanonicalAll(ms[..k]))
        decreases |fd.content| - fd.pos
      {
        ghost var m := NextRecord(ms, k, tail);
        var r, data, astray := ReadChange(fd, m);
        if r < 0 {
          assert !fd.faulty ==> k == |ms| && ms[..k] == ms;
          return r, false;
        } else if r == 0 {
          assert k == |ms| && ms[..k] == ms;
          break;
        } else if astray {
          assert k == |ms| && ms[..k] == ms;
          return -1, true;
        }
        assert k < |ms|;
        AddRecord(data, m);
        OneMoreLoaded(old(mods), ms, k);
        k := k + 1;
      }
      return 0, false;
    }

    /** check_disk_and_snapshot_contents: the change whose type decides how the disks are compared. */
    method SelectChange() returns (res: Option<Mod>)
      requires |mods| >= 2
      ensures var group := mods[|mods| - 2];
        && (res.None? <==>
              forall m <- group :: m.modType in {Create, DataMetadata, Metadata, DataMmap, Remove, Checkpoint})
        && (res.Some? ==> res.value.modType in {Fsync, Sync, Data, SyncFileRange})
        && (res.Some? ==> exists i | 0 <= i < |group| && group[i] == res.value ::
              forall j | 0 <= j < i ::
                group[j].modType in {Create, DataMetadata, Metadata, DataMmap, Remove, Checkpoint})
    {
      var numMods := |mods| - 1;
      var group := mods[numMods - 1];
      for i := 0 to |group|
        invariant forall j | 0 <= j < i ::
          group[j].modType in {Create, DataMetadata, Metadata, DataMmap, Remove, Checkpoint}
      {
        var lastMod := group[i];
        assert lastMod in group;
        if lastMod.modType == Fsync {
          return Some(lastMod);
        } else if lastMod.modType == Sync {
          return Some(lastMod);
        } else if lastMod.modType == Data || lastMod.modType == SyncFileRange {
          return Some(lastMod);
        }
      }
      return None;
    }
  }

  /**
   Record, save, load: whatever short writes and short reads the kernel makes of it, a log of changes
   comes back complete and in order, in the groups its checkpoints delimit. On a sound device only a
   change that cannot be written prevents that.
   */
  method SaveAndLoad(log: File, mods: seq<Mod>, tester: Tester) returns (res: int)
    requires log.content == [] && log.pos == 0 && 8 <= log.atom
    requires forall m <- mods :: Loggable(m)
    modifies log`content, log`pos, log`stalls, tester
    ensures res == 0 ==> tester.mods == AppendAll(old(tester.mods), CanonicalAll(mods))
    ensures res == 0 ==> Flatten(tester.mods) == Flatten(old(tester.mods)) + NonCheckpoints(CanonicalAll(mods))
    ensures res == 0 ==> forall m <- mods :: Writable(m)
    ensures !log.faulty ==> (res == 0 <==> forall m <- mods :: Writable(m))
  {
    hide LengthOverflows, Record, Serializable;
    var overrun;
    res, overrun := SerializeAll(log, mods);
    if res < 0 {
      return;
    }
    log.pos := 0;
    assert log.content[0..] == Stream(mods) + [];
    forall m | m in mods
      ensures Encodable(m)
    {
      assert Loggable(m) && Writable(m);
    }
    var wild;
    res, wild := tester.GetChangeData(log, mods, []);
    GroupsKeepAll(old(tester.mods), CanonicalAll(mods));
  }
}
