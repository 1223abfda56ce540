/** Stores to one physical range recorded to a binary log, and the log replayed at another base. */
module PmemTrace {
  import opened Bytes

  const WRITE: nat := 0
  const FLUSH: nat := 1
  const FENCE: nat := 2

  /** A guest's physical memory. */
  class Guest {
    var ram: seq<byte>

    constructor (ram: seq<byte>)
      ensures this.ram == ram
    {
      this.ram := ram;
    }

    method PhysicalWrite(addr: nat, data: seq<byte>)
      modifies this
      ensures ram == Poke(old(ram), addr, data)
    {
      ram := Poke(ram, addr, data);
    }
  }

  // ---------------------------------------------------------- the log format

  datatype LogRecord = Write(pc: nat, offset: nat, data: seq<byte>) | Flush(pc: nat, offset: nat) | Fence(pc: nat)

  predicate Fits(r: LogRecord) {
    r.pc < TWO_64 && (!r.Fence? ==> r.offset < TWO_64) && (r.Write? ==> |r.data| < TWO_64)
  }

  function TypeOf(r: LogRecord): nat {
    match r
    case Write(_, _, _) => WRITE
    case Flush(_, _) => FLUSH
    case Fence(_) => FENCE
  }

  function Payload(r: LogRecord): seq<byte> {
    match r
    case Write(_, offset, data) => ToLE(offset, 8) + ToLE(|data|, 8) + data
    case Flush(_, offset) => ToLE(offset, 8)
    case Fence(_) => []
  }

  function Encode(r: LogRecord): seq<byte> {
    ToLE(r.pc, 8) + ToLE(TypeOf(r), 4) + Payload(r)
  }

  /** The layout of a record. */
  lemma EncodedBytes(r: LogRecord)
    ensures Encode(r) == match r
      case Write(pc, offset, data) => ToLE(pc, 8) + ToLE(0, 4) + ToLE(offset, 8) + ToLE(|data|, 8) + data
      case Flush(pc, offset) => ToLE(pc, 8) + ToLE(1, 4) + ToLE(offset, 8)
      case Fence(pc) => ToLE(pc, 8) + ToLE(2, 4)
  {
    hide ToLE;
  }

  function EncodeAll(rs: seq<LogRecord>): seq<byte> {
    if rs == [] then [] else Encode(rs[0]) + EncodeAll(rs[1..])
  }

  lemma {:induction false} EncodeAppend(a: seq<LogRecord>, b: seq<LogRecord>)
    ensures EncodeAll(a + b) == EncodeAll(a) + EncodeAll(b)
  {
    hide Encode;
    if a == [] {
      assert a + b == b;
    } else {
      assert (a + b)[1..] == a[1..] + b;
      EncodeAppend(a[1..], b);
    }
  }

  // ------------------------------------------------------------ the recorder

  /** What the guest does: stores of the CPU, cache line flushes, fences. */
  datatype Event = Store(pc: nat, pa: nat, data: seq<byte>) | CacheFlush(pc: nat, pa: nat) | MemoryFence(pc: nat)

  predicate Addressable(e: Event) {
    e.pc < TWO_64 && (!e.MemoryFence? ==> e.pa < TWO_64) && (e.Store? ==> |e.data| < TWO_64)
  }

  /** What the tracker of [start, end) logs of an event. */
  function Logged(e: Event, start: nat, end: nat): (rs: seq<LogRecord>)
    ensures Addressable(e) ==> forall r <- rs :: Fits(r)
  {
    match e
    case Store(pc, pa, data) => if start <= pa < end then [Write(pc, pa - start, data)] else []
    case CacheFlush(pc, pa) => if start <= pa < end then [Flush(pc, pa - start)] else []
    case MemoryFence(pc) => [Fence(pc)]
  }

  function LoggedAll(es: seq<Event>, start: nat, end: nat): (rs: seq<LogRecord>)
    ensures (forall e <- es :: Addressable(e)) ==> forall r <- rs :: Fits(r)
  {
    if es == [] then []
    else
      var last := es[|es| - 1];
      assert last in es && forall e <- es[..|es| - 1] :: e in es;
      LoggedAll(es[..|es| - 1], start, end) + Logged(last, start, end)
  }

  function Executed(ram: seq<byte>, e: Event): seq<byte> {
    if e.Store? then Poke(ram, e.pa, e.data) else ram
  }

  function ExecutedAll(ram: seq<byte>, es: seq<Event>): seq<byte> {
    if es == [] then ram else Executed(ExecutedAll(ram, es[..|es| - 1]), es[|es| - 1])
  }

  // ---------------------------------------------------- reading a log back

  /** The event at the front of a log, at an address relative to the range, and the size of its record. */
  function FirstEvent(log: seq<byte>): (r: Option<(Event, nat)>)
    ensures r.Some? ==> 0 < r.value.1 <= |log|
  {
    if |log| < 12 then None
    else
      var pc, kind := FromLE(log[..8]), FromLE(log[8..12]);
      if kind == 2 then Some((MemoryFence(pc), 12))
      else if kind == 1 && |log| >= 20 then Some((CacheFlush(pc, FromLE(log[12..20])), 20))
      else if kind == 0 && |log| >= 28 && |log| >= 28 + FromLE(log[20..28]) then
        var size := FromLE(log[20..28]);
        Some((Store(pc, FromLE(log[12..20]), log[28..28 + size]), 28 + size))
      else None
  }

  function EventsIn(log: seq<byte>): seq<Event>
    decreases |log|
  {
    match FirstEvent(log)
    case None => []
    case Some((e, size)) => [e] + EventsIn(log[size..])
  }

  /** The event to read back from what is logged of `e`, if anything is. */
  function Relative(e: Event, start: nat, end: nat): seq<Event> {
    match e
    case Store(pc, pa, data) => if start <= pa < end then [Store(pc, pa - start, data)] else []
    case CacheFlush(pc, pa) => if start <= pa < end then [CacheFlush(pc, pa - start)] else []
    case MemoryFence(pc) => [e]
  }

  /** The events a tracker of [start, end) is to tell of, relative to the range. */
  function InRange(es: seq<Event>, start: nat, end: nat): seq<Event> {
    if es == [] then [] else Relative(es[0], start, end) + InRange(es[1..], start, end)
  }

  lemma FirstEventIs(e: Event, rest: seq<byte>)
    requires Addressable(e)
    ensures var log := Encode(AsRecord(e)) + rest;
      FirstEvent(log) == Some((e, |Encode(AsRecord(e))|)) && log[|Encode(AsRecord(e))|..] == rest
  {
    hide ToLE, FromLE;
    var r := AsRecord(e);
    EncodedBytes(r);
    Pow256Values();
    LittleEndianRoundTrip(e.pc, 8);
    var log := Encode(r) + rest;
    assert log[..8] == ToLE(e.pc, 8);
    match e
    case Store(pc, pa, data) =>
      LittleEndianRoundTrip(0, 4);
      LittleEndianRoundTrip(pa, 8);
      LittleEndianRoundTrip(|data|, 8);
      assert log[8..12] == ToLE(0, 4) && log[12..20] == ToLE(pa, 8) && log[20..28] == ToLE(|data|, 8);
      assert log[28..28 + |data|] == data;
    case CacheFlush(pc, pa) =>
      LittleEndianRoundTrip(1, 4);
      LittleEndianRoundTrip(pa, 8);
      assert log[8..12] == ToLE(1, 4) && log[12..20] == ToLE(pa, 8);
    case MemoryFence(pc) =>
      LittleEndianRoundTrip(2, 4);
      assert log[8..12] == ToLE(2, 4);
  }

  function AsRecord(e: Event): LogRecord {
    match e
    case Store(pc, pa, data) => Write(pc, pa, data)
    case CacheFlush(pc, pa) => Flush(pc, pa)
    case MemoryFence(pc) => Fence(pc)
  }

  lemma LoggedLast(es: seq<Event>, start: nat, end: nat)
    requires es != []
    ensures LoggedAll(es, start, end) == LoggedAll(es[..|es| - 1], start, end) + Logged(es[|es| - 1], start, end)
    ensures LoggedAll([], start, end) == []
  {
    hide Logged;
  }

  lemma {:induction false} LoggedFirst(es: seq<Event>, start: nat, end: nat)
    requires es != []
    ensures LoggedAll(es, start, end) == Logged(es[0], start, end) + LoggedAll(es[1..], start, end)
  {
    hide Logged, LoggedAll;
    LoggedLast(es, start, end);
    if |es| == 1 {
      assert es[..0] == [] && es[1..] == [];
    } else {
      var front, back := es[..|es| - 1], es[1..];
      LoggedFirst(front, start, end);
      LoggedLast(back, start, end);
      assert front[1..] == back[..|back| - 1];
    }
  }

  lemma EventLogged(e: Event, start: nat, end: nat, rest: seq<byte>)
    requires Addressable(e)
    ensures EventsIn(EncodeAll(Logged(e, start, end)) + rest) == Relative(e, start, end) + EventsIn(rest)
  {
    hide Encode, FirstEvent;
    var logged, told := Logged(e, start, end), Relative(e, start, end);
    if logged == [] {
      assert EncodeAll(logged) + rest == rest;
    } else {
      assert logged == [AsRecord(told[0])] && logged[1..] == [];
      assert EncodeAll(logged) == Encode(AsRecord(told[0])) + EncodeAll([]);
      FirstEventIs(told[0], rest);
      assert EncodeAll(logged) + rest == Encode(AsRecord(told[0])) + rest;
    }
  }

  /** The log of a run tells of the events in range and of no others, in order, relative to the range. */
  lemma {:induction false} LogTellsEvents(es: seq<Event>, start: nat, end: nat)
    requires forall e <- es :: Addressable(e)
    ensures EventsIn(EncodeAll(LoggedAll(es, start, end))) == InRange(es, start, end)
  {
    hide Encode, FirstEvent, Logged, LoggedAll, EventsIn, EncodeAll;
    if es == [] {
      NoEvents(start, end);
    } else {
      assert es[0] in es && forall e <- es[1..] :: e in es;
      LoggedFirst(es, start, end);
      LogTellsEvents(es[1..], start, end);
      EncodeAppend(Logged(es[0], start, end), LoggedAll(es[1..], start, end));
      EventLogged(es[0], start, end, EncodeAll(LoggedAll(es[1..], start, end)));
    }
  }

  lemma NoEvents(start: nat, end: nat)
    ensures EventsIn(EncodeAll(LoggedAll([], start, end))) == []
  {
  }

  class WriteTracker {
    const rangeStart: nat
    const rangeEnd: nat
    var output: seq<byte>

    constructor (start: nat, end: nat)
      ensures rangeStart == start && rangeEnd == end && output == []
    {
      rangeStart, rangeEnd := start, end;
      output := [];
    }

    method LogOutput(pc: nat, kind: nat, offset: nat, writeSize: nat, writeData: seq<byte>)
      requires kind == WRITE ==> writeSize == |writeData|
      requires kind == WRITE || kind == FLUSH || kind == FENCE
      modifies this
      ensures output == old(output) + Encode(
        if kind == WRITE then Write(pc, offset, writeData) else if kind == FLUSH then Flush(pc, offset) else Fence(pc))
    {
      hide ToLE;
      output := output + ToLE(pc, 8);
      output := output + ToLE(kind, 4);
      if kind == WRITE {
        output := output + ToLE(offset, 8);
        output := output + ToLE(writeSize, 8);
        output := output + writeData;
      } else if kind == FLUSH {
        output := output + ToLE(offset, 8);
      }
    }

    /** mem_write_callback: a store is logged if and only if its first byte is in the range. */
    method MemWriteCallback(pc: nat, pa: nat, size: nat, buf: seq<byte>) returns (res: int)
      requires size == |buf|
      modifies this
      ensures res == 0
      ensures output == old(output) +
        if rangeStart <= pa < rangeEnd
        then ToLE(pc, 8) + ToLE(0, 4) + ToLE(pa - rangeStart, 8) + ToLE(size, 8) + buf else []
      ensures output == old(output) + EncodeAll(Logged(Store(pc, pa, buf), rangeStart, rangeEnd))
    {
      hide Encode, ToLE;
      EncodedBytes(Write(pc, if pa >= rangeStart then pa - rangeStart else 0, buf));
      if pa >= rangeStart && pa < rangeEnd {
        LogOutput(pc, WRITE, pa - rangeStart, size, buf);
        assert EncodeAll([Write(pc, pa - rangeStart, buf)]) == Encode(Write(pc, pa - rangeStart, buf)) + EncodeAll([]);
      }
      return 0;
    }

    /** The logging branches of check_flush. */
    method FlushCallback(pc: nat, pa: nat)
      modifies this
      ensures output == old(output) +
        if rangeStart <= pa < rangeEnd then ToLE(pc, 8) + ToLE(1, 4) + ToLE(pa - rangeStart, 8) else []
      ensures output == old(output) + EncodeAll(Logged(CacheFlush(pc, pa), rangeStart, rangeEnd))
    {
      hide Encode, ToLE;
      EncodedBytes(Flush(pc, if pa >= rangeStart then pa - rangeStart else 0));
      if pa >= rangeStart && pa < rangeEnd {
        LogOutput(pc, FLUSH, pa - rangeStart, 0, []);
        assert EncodeAll([Flush(pc, pa - rangeStart)]) == Encode(Flush(pc, pa - rangeStart)) + EncodeAll([]);
      }
    }

    method FenceCallback(pc: nat)
      modifies this
      ensures output == old(output) + (ToLE(pc, 8) + ToLE(2, 4))
      ensures output == old(output) + EncodeAll(Logged(MemoryFence(pc), rangeStart, rangeEnd))
    {
      hide Encode, ToLE;
      EncodedBytes(Fence(pc));
      LogOutput(pc, FENCE, 0, 0, []);
      assert EncodeAll([Fence(pc)]) == Encode(Fence(pc)) + EncodeAll([]);
    }

    /** A whole recording session: the guest runs, the callbacks log. */
    method Track(es: seq<Event>, guest: Guest)
      requires output == []
      modifies this, guest
      ensures guest.ram == ExecutedAll(old(guest.ram), es)
      ensures output == EncodeAll(LoggedAll(es, rangeStart, rangeEnd))
      ensures (forall e <- es :: Addressable(e)) ==> EventsIn(output) == InRange(es, rangeStart, rangeEnd)
    {
      hide Encode, Logged, EventsIn, InRange;
      if forall e <- es :: Addressable(e) {
        LogTellsEvents(es, rangeStart, rangeEnd);
      }
      for i := 0 to |es|
        invariant guest.ram == ExecutedAll(old(guest.ram), es[..i])
        invariant output == EncodeAll(LoggedAll(es[..i], rangeStart, rangeEnd))
      {
        assert es[..i + 1][..i] == es[..i];
        EncodeAppend(LoggedAll(es[..i], rangeStart, rangeEnd), Logged(es[i], rangeStart, rangeEnd));
        match es[i]
        case Store(pc, pa, data) =>
          guest.PhysicalWrite(pa, data);
          var _ := MemWriteCallback(pc, pa, |data|, data);
        case CacheFlush(pc, pa) => FlushCallback(pc, pa);
        case MemoryFence(pc) => FenceCallback(pc);
      }
      assert es[..|es|] == es;
    }
  }

  // ------------------------------------------------------------ the replayer

  /** A std::ifstream: a read that runs out of bytes stores what there is and fails the stream. */
  datatype InStream = InStream(data: seq<byte>, pos: nat, failed: bool) {
    predicate Valid() { pos <= |data| }
  }

  function ReadInto(s: InStream, dst: seq<byte>): (r: (InStream, seq<byte>))
    requires s.Valid()
    ensures r.0.Valid() && r.0.data == s.data && |r.1| == |dst|
    ensures s.failed ==> r == (s, dst)
    ensures !s.failed ==> r.0.pos == s.pos + Min(|dst|, |s.data| - s.pos)
    ensures !s.failed ==> (r.0.failed <==> s.pos + |dst| > |s.data|)
  {
    if s.failed then (s, dst)
    else
      var n := Min(|dst|, |s.data| - s.pos);
      (InStream(s.data, s.pos + n, n < |dst|), s.data[s.pos..s.pos + n] + dst[n..])
  }

  /** The replayer's variables as memory; they keep their bytes from one pass to the next. */
  datatype Slots = Slots(pc: seq<byte>, kind: seq<byte>, offset: seq<byte>, size: seq<byte>, data: seq<byte>) {
    predicate Valid() { |pc| == 8 && |kind| == 4 && |offset| == 8 && |size| == 8 }
  }

  /** std::vector::resize: the old bytes as far as they go, then zeros. */
  function Resized(data: seq<byte>, size: nat): (r: seq<byte>)
    ensures |r| == size
    ensures forall i :: 0 <= i < size ==> r[i] == if i < |data| then data[i] else 0
  {
    if size <= |data| then data[..size] else data + seq<byte>(size - |data|, _ => 0)
  }

  datatype Machine = Machine(input: InStream, slots: Slots, ram: seq<byte>) {
    predicate Valid() { input.Valid() && slots.Valid() }
  }

  /** A sum of 64-bit addresses. */
  function Add64(a: nat, b: nat): nat {
    (a + b) % TWO_64
  }

  /** One pass of the loop body. */
  function Pass(m: Machine, base: nat): (r: Machine)
    requires m.Valid()
    ensures r.Valid() && r.input.data == m.input.data && |r.ram| == |m.ram|
    ensures !m.input.failed ==> r.input.failed || r.input.pos >= m.input.pos + 8
  {
    var (s1, pc) := ReadInto(m.input, m.slots.pc);
    var (s2, kind) := ReadInto(s1, m.slots.kind);
    var slots := m.slots.(pc := pc, kind := kind);
    if FromLE(kind) == WRITE then
      var (s3, offset) := ReadInto(s2, slots.offset);
      var (s4, size) := ReadInto(s3, slots.size);
      var (s5, data) := ReadInto(s4, Resized(slots.data, FromLE(size)));
      Machine(s5, slots.(offset := offset, size := size, data := data),
              Poke(m.ram, Add64(base, FromLE(offset)), data))
    else if FromLE(kind) == FLUSH then
      var (s3, offset) := ReadInto(s2, slots.offset);
      Machine(s3, slots.(offset := offset), m.ram)
    else
      Machine(s2, slots, m.ram)
  }

  /** `while (input)` from any state. */
  function Replayed(m: Machine, base: nat): (ram: seq<byte>)
    requires m.Valid()
    decreases !m.input.failed, |m.input.data| - m.input.pos
  {
    if m.input.failed then m.ram else Replayed(Pass(m, base), base)
  }

  lemma NextPass(m: Machine, base: nat)
    requires m.Valid()
    ensures Replayed(m, base) == if m.input.failed then m.ram else Replayed(Pass(m, base), base)
  {
    hide Pass;
  }

  class Replayer {
    var input: InStream

    constructor (log: seq<byte>)
      ensures input == InStream(log, 0, false)
    {
      input := InStream(log, 0, false);
    }

    method Read(dst: seq<byte>) returns (r: seq<byte>)
      requires input.Valid()
      modifies this
      ensures (input, r) == ReadInto(old(input), dst)
    {
      var (s, bytes) := ReadInto(input, dst);
      input := s;
      r := bytes;
    }

    /** The parse-and-apply loop; `stack` is what the variables hold before the first read. */
    method Replay(base: nat, guest: Guest, stack: Slots) returns (ok: bool)
      requires input.Valid() && stack.Valid()
      modifies this, guest
      ensures ok && guest.ram == Replayed(Machine(old(input), stack, old(guest.ram)), base)
    {
      hide ReadInto, FromLE, Poke, Resized, Replayed, Add64;
      var pc, kind, offset, writeSize, writeData := stack.pc, stack.kind, stack.offset, stack.size, stack.data;
      while !input.failed
        invariant input.Valid() && |pc| == 8 && |kind| == 4 && |offset| == 8 && |writeSize| == 8
        invariant Replayed(Machine(input, Slots(pc, kind, offset, writeSize, writeData), guest.ram), base)
               == Replayed(Machine(old(input), stack, old(guest.ram)), base)
        decreases !input.failed, |input.data| - input.pos
      {
        ghost var before := Machine(input, Slots(pc, kind, offset, writeSize, writeData), guest.ram);
        ghost var after := Pass(before, base);
        NextPass(before, base);
        pc := Read(pc);
        kind := Read(kind);
        if FromLE(kind) == WRITE {
          offset := Read(offset);
          writeSize := Read(writeSize);
          writeData := Resized(writeData, FromLE(writeSize));
          writeData := Read(writeData);
          guest.PhysicalWrite(Add64(base, FromLE(offset)), writeData);
        } else if FromLE(kind) == FLUSH {
          offset := Read(offset);
        }
        assert after == Machine(input, Slots(pc, kind, offset, writeSize, writeData), guest.ram);
      }
      NextPass(Machine(input, Slots(pc, kind, offset, writeSize, writeData), guest.ram), base);
      return true;
    }
  }
}
