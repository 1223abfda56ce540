/** What replaying a recorded log does to a second device. */
module PmemReplay {
  import opened Bytes
  import opened PmemTrace

  function Applied(ram: seq<byte>, r: LogRecord, base: nat): (after: seq<byte>)
    ensures |after| == |ram|
  {
    if r.Write? then Poke(ram, Add64(base, r.offset), r.data) else ram
  }

  /** The exact meaning of a log: each record once, in order. */
  function AppliedAll(ram: seq<byte>, rs: seq<LogRecord>, base: nat): (after: seq<byte>)
    ensures |after| == |ram|
    decreases |rs|
  {
    if rs == [] then ram else AppliedAll(Applied(ram, rs[0], base), rs[1..], base)
  }

  /** The variables after a pass that read `r`. */
  predicate Holds(s: Slots, r: LogRecord) {
    && s.Valid()
    && s.kind == ToLE(TypeOf(r), 4)
    && (r.Write? ==> s.offset == ToLE(r.offset, 8) && s.size == ToLE(|r.data|, 8) && s.data == r.data)
    && (r.Flush? ==> s.offset == ToLE(r.offset, 8))
  }

  lemma ReadWhole(s: InStream, dst: seq<byte>, bytes: seq<byte>)
    requires s.Valid() && !s.failed && |dst| == |bytes| && bytes <= s.data[s.pos..]
    ensures ReadInto(s, dst) == (InStream(s.data, s.pos + |bytes|, false), bytes)
    ensures s.data[s.pos + |bytes|..] == s.data[s.pos..][|bytes|..]
  {
    assert s.data[s.pos..s.pos + |bytes|] == s.data[s.pos..][..|bytes|] == bytes;
    assert bytes + dst[|bytes|..] == bytes;
  }

  lemma Decoded(r: LogRecord)
    requires Fits(r)
    ensures FromLE(ToLE(TypeOf(r), 4)) == TypeOf(r)
    ensures !r.Fence? ==> FromLE(ToLE(r.offset, 8)) == r.offset
    ensures r.Write? ==> FromLE(ToLE(|r.data|, 8)) == |r.data|
  {
    Pow256Values();
    LittleEndianRoundTrip(TypeOf(r), 4);
    if !r.Fence? {
      LittleEndianRoundTrip(r.offset, 8);
    }
    if r.Write? {
      LittleEndianRoundTrip(|r.data|, 8);
    }
  }

  /** A pass over a whole record applies it, whatever the variables held. */
  lemma PassAppliesRecord(m: Machine, base: nat, r: LogRecord, rest: seq<byte>)
    requires m.Valid() && !m.input.failed && Fits(r)
    requires m.input.data[m.input.pos..] == Encode(r) + rest
    ensures var after := Pass(m, base);
      && after.input == InStream(m.input.data, m.input.pos + |Encode(r)|, false)
      && after.input.data[after.input.pos..] == rest
      && after.ram == Applied(m.ram, r, base)
      && Holds(after.slots, r)
      && (!r.Write? ==> after.slots.size == m.slots.size && after.slots.data == m.slots.data)
  {
    hide ToLE, FromLE, ReadInto, Poke, Encode, Payload, Add64;
    Decoded(r);
    EncodedSize(r);
    ReadHead(m.input, m.slots, r, rest);
    var (s1, pc) := ReadInto(m.input, m.slots.pc);
    var (s2, kind) := ReadInto(s1, m.slots.kind);
    if r.Write? {
      ReadWriteFields(s2, m.slots, r, rest);
    } else if r.Flush? {
      ReadWhole(s2, m.slots.offset, ToLE(r.offset, 8));
    }
  }

  lemma EncodedSize(r: LogRecord)
    ensures |Encode(r)| == 12 + |Payload(r)|
    ensures |Payload(r)| == match r case Write(_, _, data) => 16 + |data| case Flush(_, _) => 8 case Fence(_) => 0
    ensures r.Flush? ==> Payload(r) == ToLE(r.offset, 8)
  {
    hide ToLE;
  }

  lemma ReadHead(s: InStream, slots: Slots, r: LogRecord, rest: seq<byte>)
    requires s.Valid() && !s.failed && slots.Valid()
    requires s.data[s.pos..] == Encode(r) + rest
    ensures var (s1, pc) := ReadInto(s, slots.pc);
      var (s2, kind) := ReadInto(s1, slots.kind);
      && kind == ToLE(TypeOf(r), 4)
      && s2 == InStream(s.data, s.pos + 12, false) && s2.data[s2.pos..] == Payload(r) + rest
  {
    hide ToLE, FromLE, ReadInto, Payload, TypeOf;
    var all := s.data[s.pos..];
    assert all == ToLE(r.pc, 8) + (ToLE(TypeOf(r), 4) + (Payload(r) + rest));
    var (s1, pc) := ReadInto(s, slots.pc);
    ReadWhole(s, slots.pc, ToLE(r.pc, 8));
    assert s1.data[s1.pos..] == ToLE(TypeOf(r), 4) + (Payload(r) + rest);
    ReadWhole(s1, slots.kind, ToLE(TypeOf(r), 4));
  }

  lemma ReadWriteFields(s2: InStream, slots: Slots, r: LogRecord, rest: seq<byte>)
    requires s2.Valid() && !s2.failed && slots.Valid() && r.Write? && Fits(r)
    requires s2.data[s2.pos..] == Payload(r) + rest
    ensures var (s3, offset) := ReadInto(s2, slots.offset);
      var (s4, size) := ReadInto(s3, slots.size);
      var (s5, data) := ReadInto(s4, Resized(slots.data, FromLE(size)));
      && offset == ToLE(r.offset, 8) && size == ToLE(|r.data|, 8) && data == r.data
      && s5 == InStream(s2.data, s2.pos + |Payload(r)|, false) && s5.data[s5.pos..] == rest
  {
    hide ToLE, FromLE, ReadInto;
    Decoded(r);
    var bytes := s2.data[s2.pos..];
    assert bytes == ToLE(r.offset, 8) + (ToLE(|r.data|, 8) + (r.data + rest));
    var (s3, offset) := ReadInto(s2, slots.offset);
    ReadWhole(s2, slots.offset, ToLE(r.offset, 8));
    assert s3.data[s3.pos..] == ToLE(|r.data|, 8) + (r.data + rest);
    var (s4, size) := ReadInto(s3, slots.size);
    ReadWhole(s3, slots.size, ToLE(|r.data|, 8));
    assert s4.data[s4.pos..] == r.data + rest;
    ReadWhole(s4, Resized(slots.data, FromLE(size)), r.data);
  }

  /** What may follow the last whole record: a piece that ends in a pc, or in a flush or a fence. */
  ghost predicate Harmless(tail: seq<byte>) {
    |tail| <= 8 || exists next :: Fits(next) && !next.Write? && |tail| < |Encode(next)| && tail <= Encode(next)
  }

  /** The pass the loop makes at the end of the input applies the record its variables hold. */
  lemma StalePass(m: Machine, base: nat, r: LogRecord)
    requires m.Valid() && !m.input.failed && Fits(r) && Holds(m.slots, r)
    requires |m.input.data| - m.input.pos <= 8
    ensures Pass(m, base).input.failed && Pass(m, base).ram == Applied(m.ram, r, base)
  {
    hide ToLE, FromLE, Poke, Add64;
    Decoded(r);
    var (s1, pc) := ReadInto(m.input, m.slots.pc);
    var (s2, kind) := ReadInto(s1, m.slots.kind);
    assert kind == m.slots.kind && s2.failed;
    if r.Write? {
      assert Resized(m.slots.data, |r.data|) == r.data;
    }
  }

  /** A read of a field that may break off: what there is replaces the front of the old bytes. */
  lemma TornRead(s: InStream, dst: seq<byte>, field: seq<byte>, rest: seq<byte>, left: nat)
    requires s.Valid() && |dst| == |field| && left <= |field| + |rest| && (s.failed ==> left == 0)
    requires s.data[s.pos..] == (field + rest)[..left]
    ensures var n := Min(|field|, left); var (after, got) := ReadInto(s, dst);
      && got == field[..n] + dst[n..]
      && after.data[after.pos..] == rest[..left - n]
      && (after.failed <==> s.failed || left < |field|)
  {
    var n := Min(|field|, left);
    if s.failed {
      assert dst == field[..n] + dst[n..];
    } else {
      assert s.data[s.pos..s.pos + n] == s.data[s.pos..][..n] == field[..n];
      assert s.data[s.pos + n..] == s.data[s.pos..][n..] == rest[..left - n];
    }
  }

  lemma SmallLE(v: byte)
    ensures ToLE(v, 4) == [v, 0, 0, 0]
  {
    assert ToLE(0, 3) == [0, 0, 0];
  }

  /** Types differ in their first byte only, so a type of which one byte was read is the new one. */
  lemma TornKind(next: LogRecord, last: LogRecord, n: nat)
    requires 1 <= n <= 4
    ensures FromLE(ToLE(TypeOf(next), 4)[..n] + ToLE(TypeOf(last), 4)[n..]) == TypeOf(next)
  {
    SmallLE(TypeOf(next));
    SmallLE(TypeOf(last));
    assert ToLE(TypeOf(next), 4)[..n] + ToLE(TypeOf(last), 4)[n..] == ToLE(TypeOf(next), 4);
    Pow256Values();
    LittleEndianRoundTrip(TypeOf(next), 4);
  }

  function Left(cut: nat, n: nat): nat {
    if cut >= n then cut - n else 0
  }

  /** The first two fields of a record torn behind its pc. */
  lemma TornHead(s: InStream, slots: Slots, next: LogRecord, cut: nat)
    requires s.Valid() && !s.failed && slots.Valid()
    requires 8 < cut < |Encode(next)| && s.data[s.pos..] == Encode(next)[..cut]
    ensures var (s1, pc) := ReadInto(s, slots.pc);
      var (s2, kind) := ReadInto(s1, slots.kind);
      var n := Min(4, cut - 8);
      && kind == ToLE(TypeOf(next), 4)[..n] + slots.kind[n..] && (s2.failed <==> cut < 12)
      && s2.data[s2.pos..] == Payload(next)[..Left(cut, 12)]
  {
    hide ToLE, FromLE, ReadInto, Payload, TypeOf;
    assert Encode(next) == ToLE(next.pc, 8) + (ToLE(TypeOf(next), 4) + Payload(next));
    TornRead(s, slots.pc, ToLE(next.pc, 8), ToLE(TypeOf(next), 4) + Payload(next), cut);
    var (s1, pc) := ReadInto(s, slots.pc);
    TornRead(s1, slots.kind, ToLE(TypeOf(next), 4), Payload(next), cut - 8);
    assert cut - 8 - Min(4, cut - 8) == Left(cut, 12);
  }

  /** A type of which a byte other than 0 was read is no store, whatever the rest of the variable holds. */
  lemma QuietKind(next: LogRecord, kind: seq<byte>, n: nat)
    requires 1 <= n <= 4 && |kind| == 4 && !next.Write?
    ensures FromLE(ToLE(TypeOf(next), 4)[..n] + kind[n..]) != WRITE
    ensures n == 4 ==> FromLE(ToLE(TypeOf(next), 4)[..n] + kind[n..]) == TypeOf(next)
  {
    SmallLE(TypeOf(next));
    var got := ToLE(TypeOf(next), 4)[..n] + kind[n..];
    assert got[0] == TypeOf(next) && FromLE(got) == got[0] + 256 * FromLE(got[1..]);
    if n == 4 {
      assert got == ToLE(TypeOf(next), 4);
      Pow256Values();
      LittleEndianRoundTrip(TypeOf(next), 4);
    }
  }

  /** A flush or a fence that broke off ends the loop without an effect, from any contents of the variables. */
  lemma QuietTear(m: Machine, base: nat, next: LogRecord, cut: nat)
    requires m.Valid() && !m.input.failed && !next.Write?
    requires 8 < cut < |Encode(next)| && m.input.data[m.input.pos..] == Encode(next)[..cut]
    ensures Pass(m, base).input.failed && Pass(m, base).ram == m.ram
  {
    hide ToLE, FromLE, ReadInto, Encode, Payload;
    TornHead(m.input, m.slots, next, cut);
    QuietKind(next, m.slots.kind, Min(4, cut - 8));
    var (s1, pc) := ReadInto(m.input, m.slots.pc);
    var (s2, kind) := ReadInto(s1, m.slots.kind);
    EncodedSize(next);
    if next.Flush? {
      assert ToLE(next.offset, 8) + [] == ToLE(next.offset, 8);
      TornRead(s2, m.slots.offset, ToLE(next.offset, 8), [], Left(cut, 12));
    }
  }

  lemma AppliedTwice(ram: seq<byte>, r: LogRecord, base: nat)
    ensures Applied(Applied(ram, r, base), r, base) == Applied(ram, r, base)
  {
  }

  /** The record was applied before, so applying it again changes nothing. */
  lemma LastPass(m: Machine, base: nat, r: LogRecord, before: seq<byte>)
    requires m.Valid() && !m.input.failed && Fits(r) && Holds(m.slots, r)
    requires Harmless(m.input.data[m.input.pos..]) && m.ram == Applied(before, r, base)
    ensures Replayed(m, base) == m.ram
  {
    hide Pass, Fits, Holds, Applied, Encode;
    AppliedTwice(before, r, base);
    var tail := m.input.data[m.input.pos..];
    if |tail| <= 8 {
      StalePass(m, base, r);
    } else {
      var next :| Fits(next) && !next.Write? && |tail| < |Encode(next)| && tail <= Encode(next);
      QuietTear(m, base, next, |tail|);
    }
    assert Replayed(m, base) == Replayed(Pass(m, base), base);
  }

  /**
   The whole loop, from any contents of its variables: a non-empty log is applied exactly, also
   when it breaks off in the pc of a further record, or in a flush or a fence.
   */
  lemma {:induction false} ReplayIsExact(m: Machine, base: nat, rs: seq<LogRecord>, tail: seq<byte>)
    requires m.Valid() && !m.input.failed && rs != [] && Harmless(tail)
    requires forall r <- rs :: Fits(r)
    requires m.input.data[m.input.pos..] == EncodeAll(rs) + tail
    ensures Replayed(m, base) == AppliedAll(m.ram, rs, base)
    decreases |rs|
  {
    hide Encode, Pass, Fits, Holds, Applied, Harmless;
    assert EncodeAll(rs) + tail == Encode(rs[0]) + (EncodeAll(rs[1..]) + tail);
    assert Fits(rs[0]);
    PassAppliesRecord(m, base, rs[0], EncodeAll(rs[1..]) + tail);
    var next := Pass(m, base);
    if |rs| > 1 {
      ReplayIsExact(next, base, rs[1..], tail);
    } else {
      assert next.input.data[next.input.pos..] == tail;
      LastPass(next, base, rs[0], m.ram);
    }
  }

  // ------------------------------------------------------- torn and empty logs

  /** The bytes of `next` that reached the log before it broke off. */
  ghost predicate TornAt(log: seq<byte>, rs: seq<LogRecord>, next: LogRecord, cut: nat)
    requires cut < |Encode(next)|
  {
    rs != [] && (forall r <- rs :: Fits(r)) && log == EncodeAll(rs) + Encode(next)[..cut]
  }

  ghost predicate TearIsHarmless(log: seq<byte>, rs: seq<LogRecord>) {
    forall slots: Slots, ram: seq<byte>, base: nat | slots.Valid() ::
      Replayed(Machine(InStream(log, 0, false), slots, ram), base) == AppliedAll(ram, rs, base)
  }

  /**
   Whatever records came before, but at least one, a log torn `cut` bytes into `next` is replayed as its
   whole records if and only if `next` is no store or the tear is in its pc.
   */
  lemma TornLog(next: LogRecord, cut: nat)
    requires Fits(next) && cut < |Encode(next)|
    ensures (forall log, rs | TornAt(log, rs, next, cut) :: TearIsHarmless(log, rs)) <==> cut <= 8 || !next.Write?
  {
    hide Encode, Fits;
    if cut <= 8 || !next.Write? {
      var tail := Encode(next)[..cut];
      assert Harmless(tail);
      forall log, rs | TornAt(log, rs, next, cut)
        ensures TearIsHarmless(log, rs)
      {
        forall slots: Slots, ram: seq<byte>, base: nat | slots.Valid()
          ensures Replayed(Machine(InStream(log, 0, false), slots, ram), base) == AppliedAll(ram, rs, base)
        {
          assert log[0..] == log;
          ReplayIsExact(Machine(InStream(log, 0, false), slots, ram), base, rs, tail);
        }
      }
    } else {
      var log, rs := HarmfulTear(next, cut);
    }
  }

  /** Old data that keeps its size under the bytes of the size of `next` that were read. */
  function Stale(next: LogRecord): (data: seq<byte>)
    requires next.Write?
    ensures forall i :: 0 <= i < |data| ==> data[i] == 1
    ensures |data| == if next.data == [] then 0x100_0000_0000_0000 else |next.data|
  {
    seq<byte>(if next.data == [] then 0x100_0000_0000_0000 else |next.data|, _ => 1)
  }

  /**
   The witness: a store of old data elsewhere, a flush of the address of `next`, and `next` torn. Once
   the new type is (partly) read, old data goes to the flushed address.
   */
  lemma HarmfulTear(next: LogRecord, cut: nat) returns (log: seq<byte>, rs: seq<LogRecord>)
    requires next.Write? && Fits(next) && 8 < cut < |Encode(next)|
    ensures TornAt(log, rs, next, cut) && !TearIsHarmless(log, rs)
  {
    hide ToLE, FromLE, Pass, Encode, Stale, Poke, Replayed, EncodeAll, AppliedAll, Add64;
    EncodedSize(next);
    var i := Left(cut, 28);
    var base, past := Around(next.offset, i + 1);
    var first, second := Write(0, past, Stale(next)), Flush(0, next.offset);
    rs := [first, second];
    var torn := Encode(next)[..cut];
    log := EncodeAll(rs) + torn;

    var slots := Slots(ToLE(0, 8), ToLE(0, 4), ToLE(0, 8), ToLE(0, 8), []);
    var ram := seq<byte>(i + 1, _ => 0);
    PokedPast(ram, i + 1, first.data);
    TwoRecords(first, second, ram, base);
    var m0 := Machine(InStream(log, 0, false), slots, ram);
    assert log[0..] == Encode(first) + (Encode(second) + torn);
    PassAppliesRecord(m0, base, first, Encode(second) + torn);
    var m1 := Pass(m0, base);
    PassAppliesRecord(m1, base, second, torn);
    var m2 := Pass(m1, base);
    TornPass(m2, base, next, cut);
    NextPass(m0, base);
    NextPass(m1, base);
    NextPass(m2, base);
    NextPass(Pass(m2, base), base);
    assert AppliedAll(ram, rs, base) == ram;
  }

  lemma TwoRecords(a: LogRecord, b: LogRecord, ram: seq<byte>, base: nat)
    ensures EncodeAll([a, b]) == Encode(a) + Encode(b)
    ensures AppliedAll(ram, [a, b], base) == Applied(Applied(ram, a, base), b, base)
  {
    hide Encode, Applied;
    assert [a, b][1..] == [b] && [b][1..] == [];
    assert EncodeAll([b]) == Encode(b) + EncodeAll([]);
    var once := Applied(ram, a, base);
    assert AppliedAll(ram, [a, b], base) == AppliedAll(once, [b], base);
    assert AppliedAll(once, [b], base) == AppliedAll(Applied(once, b, base), [], base);
  }

  /** A base that takes `offset` to 0 takes the one `n` past it, on the circle of 64-bit addresses, to `n`. */
  lemma Around(offset: nat, n: nat) returns (base: nat, past: nat)
    requires offset < TWO_64 && n < TWO_64
    ensures Add64(base, offset) == 0 && Add64(base, past) == n && past < TWO_64
  {
    base, past := if offset == 0 then 0 else TWO_64 - offset, Add64(offset, n);
  }

  lemma PokedPast(ram: seq<byte>, addr: nat, data: seq<byte>)
    requires |ram| <= addr
    ensures Poke(ram, addr, data) == ram
  {
  }

  lemma TornPass(m: Machine, base: nat, next: LogRecord, cut: nat)
    requires m.Valid() && !m.input.failed && next.Write? && Fits(next) && 8 < cut < |Encode(next)|
    requires m.slots.kind == ToLE(FLUSH, 4) && m.slots.offset == ToLE(next.offset, 8)
    requires m.slots.size == ToLE(|Stale(next)|, 8) && m.slots.data == Stale(next)
    requires m.input.data[m.input.pos..] == Encode(next)[..cut]
    requires Add64(base, next.offset) == 0 && Left(cut, 28) < |m.ram|
    ensures Pass(m, base).input.failed && Pass(m, base).ram[Left(cut, 28)] == 1
  {
    hide ToLE, FromLE, ReadInto, Stale, Encode, Left, Resized, Add64;
    TornHead(m.input, m.slots, next, cut);
    TornKind(next, Flush(0, 0), Min(4, cut - 8));
    var (s1, pc) := ReadInto(m.input, m.slots.pc);
    var (s2, kind) := ReadInto(s1, m.slots.kind);
    TornPayload(s2, m.slots, next, cut);
    Decoded(next);
  }

  lemma TornPayload(s2: InStream, slots: Slots, next: LogRecord, cut: nat)
    requires s2.Valid() && slots.Valid() && next.Write? && Fits(next)
    requires 8 < cut < |Encode(next)| && (s2.failed <==> cut < 12)
    requires slots.offset == ToLE(next.offset, 8) && slots.size == ToLE(|Stale(next)|, 8) && slots.data == Stale(next)
    requires s2.data[s2.pos..] == Payload(next)[..Left(cut, 12)]
    ensures var (s3, offset) := ReadInto(s2, slots.offset);
      var (s4, size) := ReadInto(s3, slots.size);
      var (s5, data) := ReadInto(s4, Resized(slots.data, FromLE(size)));
      && offset == ToLE(next.offset, 8) && s5.failed && Left(cut, 28) < |data| && data[Left(cut, 28)] == 1
  {
    hide ToLE, FromLE, ReadInto, Stale, Resized, Encode, Fits;
    EncodedSize(next);
    var rest := ToLE(|next.data|, 8) + next.data;
    assert Payload(next) == ToLE(next.offset, 8) + rest;
    TornRead(s2, slots.offset, ToLE(next.offset, 8), rest, Left(cut, 12));
    var (s3, offset) := ReadInto(s2, slots.offset);
    var n := Min(8, Left(cut, 12));
    assert offset == ToLE(next.offset, 8)[..n] + ToLE(next.offset, 8)[n..] == ToLE(next.offset, 8);
    assert Left(cut, 12) - n == Left(cut, 20);
    TornSizeAndData(s3, slots, next, cut);
  }

  lemma TornSizeAndData(s3: InStream, slots: Slots, next: LogRecord, cut: nat)
    requires s3.Valid() && slots.Valid() && next.Write? && Fits(next)
    requires 8 < cut < 28 + |next.data| && (s3.failed <==> cut < 20)
    requires slots.size == ToLE(|Stale(next)|, 8) && slots.data == Stale(next)
    requires s3.data[s3.pos..] == (ToLE(|next.data|, 8) + next.data)[..Left(cut, 20)]
    ensures var (s4, size) := ReadInto(s3, slots.size);
      var (s5, data) := ReadInto(s4, Resized(slots.data, FromLE(size)));
      s5.failed && Left(cut, 28) < |data| && data[Left(cut, 28)] == 1
  {
    hide ToLE, FromLE, ReadInto, Stale, Resized, Fits;
    TornRead(s3, slots.size, ToLE(|next.data|, 8), next.data, Left(cut, 20));
    var (s4, size) := ReadInto(s3, slots.size);
    TornSize(next, Min(8, Left(cut, 20)));
    TornData(s4, next, cut);
  }

  lemma TornData(s4: InStream, next: LogRecord, cut: nat)
    requires s4.Valid() && next.Write? && (s4.failed <==> cut < 28) && cut < 28 + |next.data|
    requires s4.data[s4.pos..] == next.data[..Left(cut, 28)]
    ensures var (s5, data) := ReadInto(s4, Resized(Stale(next), |Stale(next)|));
      s5.failed && Left(cut, 28) < |data| && data[Left(cut, 28)] == 1
  {
    assert Resized(Stale(next), |Stale(next)|) == Stale(next);
    if cut >= 28 {
      assert next.data + [] == next.data;
      TornRead(s4, Stale(next), next.data, [], cut - 28);
    }
  }

  /** A size field that broke off: both sizes are equal, or the new one is 0 and the old one has one high bit. */
  lemma TornSize(next: LogRecord, n: nat)
    requires next.Write? && Fits(next) && n <= 8 && (n == 8 ==> next.data != [])
    ensures FromLE(ToLE(|next.data|, 8)[..n] + ToLE(|Stale(next)|, 8)[n..]) == |Stale(next)|
  {
    hide FromLE;
    Pow256Values();
    LittleEndianRoundTrip(|Stale(next)|, 8);
    assert ToLE(|next.data|, 8)[..n] + ToLE(|Stale(next)|, 8)[n..] == ToLE(|Stale(next)|, 8) by {
      if next.data == [] {
        HighBitLE(7, n);
      }
    }
  }

  lemma {:induction false} HighBitLE(k: nat, n: nat)
    requires n <= k
    ensures ToLE(0, k + 1)[..n] == ToLE(Pow256(k), k + 1)[..n]
  {
    if n > 0 {
      HighBitLE(k - 1, n - 1);
      assert Pow256(k) == 256 * Pow256(k - 1);
      assert Pow256(k) / 256 == Pow256(k - 1) && Pow256(k) % 256 == 0;
      assert ToLE(0, k + 1)[..n] == [0] + ToLE(0, k)[..n - 1];
      assert ToLE(Pow256(k), k + 1)[..n] == [0] + ToLE(Pow256(k - 1), k)[..n - 1];
    }
  }

  /**
   A log that ends in a harmless piece is replayed as its records if and only if there is a record, or
   enough of the piece to tell that it is none of a store. Otherwise the one pass of the loop stores
   what its variables happen to hold.
   */
  lemma EmptyLogExact(rs: seq<LogRecord>, tail: seq<byte>)
    requires Harmless(tail) && forall r <- rs :: Fits(r)
    ensures TearIsHarmless(EncodeAll(rs) + tail, rs) <==> rs != [] || |tail| > 8
  {
    hide Pass, Fits, Harmless;
    var log := EncodeAll(rs) + tail;
    assert log[0..] == log;
    if rs != [] || |tail| > 8 {
      forall slots: Slots, ram: seq<byte>, base: nat | slots.Valid()
        ensures Replayed(Machine(InStream(log, 0, false), slots, ram), base) == AppliedAll(ram, rs, base)
      {
        var m := Machine(InStream(log, 0, false), slots, ram);
        if rs != [] {
          ReplayIsExact(m, base, rs, tail);
        } else {
          PieceAlone(m, base, tail);
        }
      }
    } else {
      assert log == tail;
      Uninitialised(tail);
    }
  }

  lemma PieceAlone(m: Machine, base: nat, tail: seq<byte>)
    requires m.Valid() && !m.input.failed && m.input.data[m.input.pos..] == tail
    requires Harmless(tail) && |tail| > 8
    ensures Replayed(m, base) == m.ram
  {
    hide Pass, Fits, Encode;
    var next :| Fits(next) && !next.Write? && |tail| < |Encode(next)| && tail <= Encode(next);
    QuietTear(m, base, next, |tail|);
    NextPass(m, base);
    NextPass(Pass(m, base), base);
  }

  /** Variables that hold a store of a one to address 0. */
  lemma Uninitialised(tail: seq<byte>)
    requires |tail| <= 8
    ensures !TearIsHarmless(tail, [])
  {
    hide Pass, ToLE, Replayed;
    var slots := Slots(ToLE(0, 8), ToLE(WRITE, 4), ToLE(0, 8), ToLE(1, 8), [1]);
    var m := Machine(InStream(tail, 0, false), slots, [0]);
    StalePass(m, 0, Write(0, 0, [1]));
    NextPass(m, 0);
    NextPass(Pass(m, 0), 0);
    assert Pass(m, 0).ram[0] == 1;
    assert Replayed(m, 0) != AppliedAll([0], [], 0);
  }

  /** A log that is no more than a piece of its first record. */
  lemma TornFirstRecord(next: LogRecord, cut: nat)
    requires Fits(next) && cut < |Encode(next)|
    ensures TearIsHarmless(Encode(next)[..cut], []) <==> cut > 8 && !next.Write?
  {
    hide Encode, Fits, TearIsHarmless;
    var tail := Encode(next)[..cut];
    if cut <= 8 || !next.Write? {
      assert Harmless(tail);
      assert EncodeAll([]) + tail == tail;
      EmptyLogExact([], tail);
    } else {
      HarmfulFirst(next, cut);
    }
  }

  lemma HarmfulFirst(next: LogRecord, cut: nat)
    requires next.Write? && Fits(next) && 8 < cut < |Encode(next)|
    ensures !TearIsHarmless(Encode(next)[..cut], [])
  {
    hide ToLE, Pass, Encode, Stale, Replayed, Add64;
    var base, _ := Around(next.offset, 0);
    var slots := Slots(ToLE(0, 8), ToLE(FLUSH, 4), ToLE(next.offset, 8), ToLE(|Stale(next)|, 8), Stale(next));
    var ram := seq<byte>(Left(cut, 28) + 1, _ => 0);
    var log := Encode(next)[..cut];
    assert log[0..] == log;
    var m := Machine(InStream(log, 0, false), slots, ram);
    TornPass(m, base, next, cut);
    NextPass(m, base);
    NextPass(Pass(m, base), base);
    assert Replayed(m, base) != AppliedAll(ram, [], base);
  }

  // ------------------------------------------------------ record and replay

  /** The two devices hold the same bytes. */
  predicate InSync(recorded: seq<byte>, start: nat, replayed: seq<byte>, base: nat, len: nat) {
    && start + len <= |recorded| && base + len <= |replayed|
    && (forall i :: start <= i < start + len ==> recorded[i] == replayed[base + (i - start)])
  }

  /** Nothing outside the replay device differs. */
  predicate SameOutside(before: seq<byte>, after: seq<byte>, base: nat, len: nat) {
    |before| == |after| && forall i | 0 <= i < |before| && !(base <= i < base + len) :: before[i] == after[i]
  }

  /** The store crosses one end of [start, end) that holds part of it. */
  predicate Straddles(e: Event, start: nat, end: nat) {
    e.Store? && ((e.pa < start < e.pa + |e.data|) || (start <= e.pa < end < e.pa + |e.data|))
  }

  function Replay(ram: seq<byte>, e: Event, start: nat, end: nat, base: nat): seq<byte> {
    AppliedAll(ram, Logged(e, start, end), base)
  }

  lemma {:induction false} AppliedAppend(ram: seq<byte>, a: seq<LogRecord>, b: seq<LogRecord>, base: nat)
    ensures AppliedAll(ram, a + b, base) == AppliedAll(AppliedAll(ram, a, base), b, base)
    decreases |a|
  {
    if a == [] {
      assert a + b == b;
    } else {
      assert (a + b)[1..] == a[1..] + b;
      AppliedAppend(Applied(ram, a[0], base), a[1..], b, base);
    }
  }

  lemma AtMostOne(ram: seq<byte>, rs: seq<LogRecord>, base: nat)
    requires |rs| <= 1
    ensures AppliedAll(ram, rs, base) == if rs == [] then ram else Applied(ram, rs[0], base)
  {
    if rs != [] {
      assert AppliedAll(ram, rs, base) == AppliedAll(Applied(ram, rs[0], base), rs[1..], base);
    }
  }

  lemma AddressInRange(base: nat, offset: nat)
    ensures base + offset < TWO_64 ==> Add64(base, offset) == base + offset
  {
  }

  lemma ReplayedStore(rep: seq<byte>, e: Event, start: nat, len: nat, base: nat)
    requires base + len <= TWO_64
    ensures Replay(rep, e, start, start + len, base)
         == if e.Store? && start <= e.pa < start + len then Poke(rep, base + (e.pa - start), e.data) else rep
  {
    hide Poke, AppliedAll, Add64;
    AddressInRange(base, if e.Store? && start <= e.pa < start + len then e.pa - start else 0);
    AtMostOne(rep, Logged(e, start, start + len), base);
    if e.Store? && start <= e.pa < start + len {
      var r := Write(e.pc, e.pa - start, e.data);
      assert Logged(e, start, start + len) == [r];
      assert Applied(rep, r, base) == Poke(rep, base + r.offset, e.data);
    }
  }

  lemma StepInSync(rec: seq<byte>, rep: seq<byte>, e: Event, start: nat, len: nat, base: nat)
    requires InSync(rec, start, rep, base, len) && base + len <= TWO_64
    requires !Straddles(e, start, start + len)
    ensures var after := Replay(rep, e, start, start + len, base);
      InSync(Executed(rec, e), start, after, base, len) && SameOutside(rep, after, base, len)
  {
    hide Replay;
    ReplayedStore(rep, e, start, len, base);
  }

  /** A store of `n` bytes at `pa` puts a byte into [at, at + len). */
  predicate Overlaps(pa: nat, n: nat, at: nat, len: nat) {
    n > 0 && pa < at + len && at < pa + n
  }

  predicate Intrudes(e: Event, base: nat, len: nat) {
    e.Store? && Overlaps(e.pa, |e.data|, base, len)
  }

  /**
   A store that starts in the range ends in it; any other store misses both devices. If the replay
   device ends the memory, a logged store may run over the end of the range: what is replayed past
   the memory is lost. It must then miss the replay device, or fill the range from its start.
   */
  predicate Confined(pa: nat, n: nat, start: nat, len: nat, base: nat, size: nat) {
    if start <= pa < start + len then
      pa + n <= start + len || (base + len == size && (pa + n <= base || pa == start))
    else
      !Overlaps(pa, n, start, len) && !Overlaps(pa, n, base, len)
  }

  /** What a trace is asked of each store is what one store needs, unless the replay device ends the memory. */
  lemma TraceConditionExact(e: Event, start: nat, len: nat, base: nat, size: nat)
    requires e.Store? && len > 0 && (start + len <= base || base + len <= start)
    ensures !Straddles(e, start, start + len) && !Intrudes(e, base, len) ==>
      Confined(e.pa, |e.data|, start, len, base, size)
    ensures base + len != size ==>
      (Confined(e.pa, |e.data|, start, len, base, size) <==>
        !Straddles(e, start, start + len) && !Intrudes(e, base, len))
  {
  }

  /** After the event and its replay the devices agree, and the replay changed nothing else. */
  ghost predicate StaysInSync(ram: seq<byte>, e: Event, start: nat, len: nat, base: nat) {
    var after := Replay(Executed(ram, e), e, start, start + len, base);
    InSync(after, start, after, base, len) && SameOutside(Executed(ram, e), after, base, len)
  }

  /** A store keeps the devices synchronised in every memory, whatever it writes, if and only if it is confined. */
  lemma StepIsExact(pc: nat, pa: nat, n: nat, start: nat, len: nat, base: nat, size: nat)
    requires len > 0 && (start + len <= base || base + len <= start)
    requires start + len <= size && base + len <= size <= TWO_64
    ensures (forall ram, data | |ram| == size && |data| == n && InSync(ram, start, ram, base, len) ::
              StaysInSync(ram, Store(pc, pa, data), start, len, base))
       <==> Confined(pa, n, start, len, base, size)
  {
    if Confined(pa, n, start, len, base, size) {
      forall ram, data | |ram| == size && |data| == n && InSync(ram, start, ram, base, len)
        ensures StaysInSync(ram, Store(pc, pa, data), start, len, base)
      {
        ConfinedStaysInSync(ram, pc, pa, data, start, len, base);
      }
    } else {
      var ram, data := Desynchronised(pc, pa, n, start, len, base, size);
    }
  }

  /** Where the bytes of a store arrive: at their address, and at their place in the replay device. */
  lemma StoreArrives(ram: seq<byte>, e: Event, start: nat, len: nat, base: nat, i: nat)
    requires e.Store? && base + len <= |ram| <= TWO_64 && i < |ram|
    ensures var ran := Executed(ram, e);
      var after := Replay(ran, e, start, start + len, base);
      && |ran| == |after| == |ram|
      && ran[i] == (if e.pa <= i < e.pa + |e.data| then e.data[i - e.pa] else ram[i])
      && after[i] == if start <= e.pa < start + len && e.pa <= i + start - base < e.pa + |e.data|
                     then e.data[i + start - base - e.pa]
                     else ran[i]
  {
    hide Replay;
    ReplayedStore(Executed(ram, e), e, start, len, base);
  }

  lemma ConfinedStaysInSync(ram: seq<byte>, pc: nat, pa: nat, data: seq<byte>, start: nat, len: nat, base: nat)
    requires len > 0 && (start + len <= base || base + len <= start) && base + len <= |ram| <= TWO_64
    requires InSync(ram, start, ram, base, len) && Confined(pa, |data|, start, len, base, |ram|)
    ensures StaysInSync(ram, Store(pc, pa, data), start, len, base)
  {
    hide Replay, Executed;
    var e := Store(pc, pa, data);
    var ran := Executed(ram, e);
    var after := Replay(ran, e, start, start + len, base);
    StoreArrives(ram, e, start, len, base, base);
    forall i | start <= i < start + len
      ensures after[i] == after[base + (i - start)]
    {
      StoreArrives(ram, e, start, len, base, i);
      StoreArrives(ram, e, start, len, base, base + (i - start));
    }
    forall i | 0 <= i < |ram| && !(base <= i < base + len)
      ensures ran[i] == after[i]
    {
      StoreArrives(ram, e, start, len, base, i);
    }
  }

  /** `n` zeros, but a one at `at` if that is one of them. */
  function OneAt(n: nat, at: int): (s: seq<byte>)
    ensures |s| == n && forall i :: 0 <= i < n ==> s[i] == if i == at then 1 else 0
  {
    seq<byte>(n, i => if i == at then 1 else 0)
  }

  /** In a memory of zeros, a one stored where it makes the difference. */
  lemma Desynchronised(pc: nat, pa: nat, n: nat, start: nat, len: nat, base: nat, size: nat)
    returns (ram: seq<byte>, data: seq<byte>)
    requires len > 0 && (start + len <= base || base + len <= start)
    requires start + len <= size && base + len <= size <= TWO_64
    requires !Confined(pa, n, start, len, base, size)
    ensures |ram| == size && |data| == n && InSync(ram, start, ram, base, len)
    ensures !StaysInSync(ram, Store(pc, pa, data), start, len, base)
  {
    hide Replay, Executed, OneAt, StaysInSync;
    ram := OneAt(size, -1);
    if start <= pa < start + len && base + len < size {
      data := OneAt(n, start + len - pa);
      Overrun(pc, pa, n, start, len, base, size);
    } else {
      var i := if pa < start < pa + n || start <= pa < start + len then 0 else Max(pa, base) - base;
      var one := if pa < start < pa + n then start else base + i;
      data := OneAt(n, one - pa);
      HalfStored(pc, pa, n, one, i, start, len, base, size);
    }
  }

  /** The first byte past the range is replayed past the replay device. */
  lemma Overrun(pc: nat, pa: nat, n: nat, start: nat, len: nat, base: nat, size: nat)
    requires len > 0 && (start + len <= base || base + len <= start) && base + len < size <= TWO_64
    requires start <= pa < start + len < pa + n
    ensures !StaysInSync(OneAt(size, -1), Store(pc, pa, OneAt(n, start + len - pa)), start, len, base)
  {
    hide Replay, Executed, OneAt;
    StoreArrives(OneAt(size, -1), Store(pc, pa, OneAt(n, start + len - pa)), start, len, base, base + len);
  }

  /** The one is in only one of two places `i` bytes into the devices, and nothing replayed to either. */
  lemma HalfStored(pc: nat, pa: nat, n: nat, one: nat, i: nat, start: nat, len: nat, base: nat, size: nat)
    requires (start + len <= base || base + len <= start) && i < len
    requires start + len <= size && base + len <= size <= TWO_64
    requires pa <= one < pa + n && (one == start + i || one == base + i)
    requires start <= pa < start + len ==> start + i < pa
    ensures !StaysInSync(OneAt(size, -1), Store(pc, pa, OneAt(n, one - pa)), start, len, base)
  {
    hide Replay, Executed, OneAt;
    var e := Store(pc, pa, OneAt(n, one - pa));
    StoreArrives(OneAt(size, -1), e, start, len, base, start + i);
    StoreArrives(OneAt(size, -1), e, start, len, base, base + i);
  }

  lemma {:induction false} TraceInSync(rec: seq<byte>, rep: seq<byte>, es: seq<Event>, start: nat, len: nat, base: nat)
    requires InSync(rec, start, rep, base, len) && base + len <= TWO_64
    requires forall e <- es :: !Straddles(e, start, start + len)
    ensures var after := AppliedAll(rep, LoggedAll(es, start, start + len), base);
      InSync(ExecutedAll(rec, es), start, after, base, len) && SameOutside(rep, after, base, len)
  {
    if es != [] {
      var front, last := es[..|es| - 1], es[|es| - 1];
      assert last in es && forall e <- front :: e in es;
      TraceInSync(rec, rep, front, start, len, base);
      var before := AppliedAll(rep, LoggedAll(front, start, start + len), base);
      StepInSync(ExecutedAll(rec, front), before, last, start, len, base);
      AppliedAppend(rep, LoggedAll(front, start, start + len), Logged(last, start, start + len), base);
    }
  }

  /** Stores that miss a device leave it alone. */
  lemma {:induction false} NotIntruded(ram: seq<byte>, es: seq<Event>, base: nat, len: nat)
    requires forall e <- es :: !Intrudes(e, base, len)
    ensures |ExecutedAll(ram, es)| == |ram|
    ensures forall i :: 0 <= i < |ram| && base <= i < base + len ==> ExecutedAll(ram, es)[i] == ram[i]
  {
    if es != [] {
      var last := es[|es| - 1];
      assert last in es && forall e <- es[..|es| - 1] :: e in es;
      NotIntruded(ram, es[..|es| - 1], base, len);
    }
  }

  /** The two devices of one memory, and events that respect them. */
  ghost predicate Recordable(ram: seq<byte>, es: seq<Event>, start: nat, len: nat, base: nat) {
    && InSync(ram, start, ram, base, len) && (start + len <= base || base + len <= start) && base + len <= TWO_64
    && (forall e <- es :: Addressable(e) && !Straddles(e, start, start + len) && !Intrudes(e, base, len))
  }

  /**
   Record and replay, byte for byte, in one memory. Take the log of any trace whose stores cross no
   end of the range and miss the replay device, cut it after any number of events (or in the piece of
   the next that does no harm), and run the replay loop on it after the trace, from any variable contents: the replay
   device becomes what the recorded device was at that point.
   */
  lemma RecordReplay(ram: seq<byte>, es: seq<Event>, k: nat, tail: seq<byte>,
                     start: nat, len: nat, base: nat, slots: Slots)
    requires Recordable(ram, es, start, len, base) && slots.Valid()
    requires k <= |es| && LoggedAll(es[..k], start, start + len) != [] && Harmless(tail)
    ensures var log := EncodeAll(LoggedAll(es[..k], start, start + len)) + tail;
      var after := Replayed(Machine(InStream(log, 0, false), slots, ExecutedAll(ram, es)), base);
      && InSync(ExecutedAll(ram, es[..k]), start, after, base, len)
      && SameOutside(ExecutedAll(ram, es), after, base, len)
  {
    hide Replayed, Encode, Logged, Fits, SameOutside, Straddles, Addressable, Intrudes, LoggedAll, ExecutedAll;
    var rs := LoggedAll(es[..k], start, start + len);
    var log := EncodeAll(rs) + tail;
    assert forall e <- es[..k] :: e in es;
    assert log[0..] == log;
    NotIntruded(ram, es, base, len);
    ReplayIsExact(Machine(InStream(log, 0, false), slots, ExecutedAll(ram, es)), base, rs, tail);
    TraceInSync(ram, ExecutedAll(ram, es), es[..k], start, len, base);
  }

  lemma WholeTraceInSync(ran: seq<byte>, after: seq<byte>, start: nat, len: nat, base: nat)
    requires start + len <= base || base + len <= start
    requires InSync(ran, start, after, base, len) && SameOutside(ran, after, base, len)
    ensures InSync(after, start, after, base, len)
  {
  }

  /** The tool's own sequence: track a run of the guest, then replay the log in its memory. */
  method RecordThenReplay(es: seq<Event>, guest: Guest, start: nat, len: nat, base: nat, stack: Slots)
    returns (ok: bool)
    requires Recordable(guest.ram, es, start, len, base) && stack.Valid()
    requires LoggedAll(es, start, start + len) != []
    modifies guest
    ensures ok
    ensures InSync(guest.ram, start, guest.ram, base, len)
    ensures SameOutside(ExecutedAll(old(guest.ram), es), guest.ram, base, len)
  {
    hide Replayed, EncodeAll, LoggedAll, ExecutedAll, InSync, SameOutside, Straddles, Addressable, Intrudes;
    ghost var ram := guest.ram;
    var tracker := new WriteTracker(start, start + len);
    tracker.Track(es, guest);
    var replayer := new Replayer(tracker.output);
    ok := replayer.Replay(base, guest, stack);
    assert es[..|es|] == es;
    assert tracker.output + [] == tracker.output;
    RecordReplay(ram, es, |es|, [], start, len, base, stack);
    WholeTraceInSync(ExecutedAll(ram, es), guest.ram, start, len, base);
  }
}
