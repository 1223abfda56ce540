/** WriteData and WriteDataMmap: known test data written over any byte range of a file. */
module Workload {
  import opened Bytes
  import opened Posix

  // ------------------------------------------------------- unsigned masks

  function Pow2(k: nat): (r: nat)
    ensures r > 0
  {
    if k == 0 then 1 else 2 * Pow2(k - 1)
  }

  /** The C operator `&` on unsigned numbers, bit by bit. */
  function BitAnd(a: nat, b: nat): nat {
    if a == 0 || b == 0 then 0
    else (if a % 2 == 1 && b % 2 == 1 then 1 else 0) + 2 * BitAnd(a / 2, b / 2)
  }

  /** The C operator `~` on a 32-bit unsigned number. */
  function BitNot(a: nat): nat
    requires a < TWO_32
  {
    TWO_32 - 1 - a
  }

  /** Unsigned 32-bit addition and subtraction. */
  function Add32(a: nat, b: nat): nat { (a + b) % TWO_32 }
  function Sub32(a: nat, b: nat): nat { (a - b) % TWO_32 }

  lemma MulBounds(m: nat, d: int)
    ensures d >= 1 ==> m * d >= m
    ensures d <= -1 ==> m * d <= 0 - m
  {
    if d >= 1 {
      assert m * (d - 1) >= 0;
    } else if d <= -1 {
      assert m * (-1 - d) >= 0;
    }
  }

  lemma ModUnique(x: nat, q: nat, r: nat, m: nat)
    requires r < m && x == m * q + r
    ensures x % m == r
  {
    assert m * (x / m - q) == r - x % m;
    MulBounds(m, x / m - q);
  }

  lemma ModDouble(x: nat, m: nat)
    requires m > 0
    ensures x % (2 * m) == x % 2 + 2 * ((x / 2) % m)
  {
    var h := x / 2;
    assert 2 * m * (h / m) == 2 * (m * (h / m));
    ModUnique(x, h / m, x % 2 + 2 * (h % m), 2 * m);
  }

  lemma BitAndStep(a: nat, b: nat)
    ensures BitAnd(a, b) == (if a % 2 == 1 && b % 2 == 1 then 1 else 0) + 2 * BitAnd(a / 2, b / 2)
  {
  }

  lemma LowMaskStep(x: nat, m: nat)
    requires m > 0 && BitAnd(x / 2, m - 1) == (x / 2) % m
    ensures BitAnd(x, 2 * m - 1) == x % (2 * m)
  {
    hide BitAnd;
    ModDouble(x, m);
    BitAndStep(x, 2 * m - 1);
    assert (2 * m - 1) / 2 == m - 1 && (2 * m - 1) % 2 == 1;
  }

  lemma {:induction false} LowMask(x: nat, k: nat)
    ensures BitAnd(x, Pow2(k) - 1) == x % Pow2(k)
  {
    hide BitAnd;
    if k == 0 {
      BitAndZero(x);
    } else {
      LowMask(x / 2, k - 1);
      LowMaskStep(x, Pow2(k - 1));
    }
  }

  lemma BitAndZero(x: nat)
    ensures BitAnd(x, 0) == 0
  {
  }

  lemma HighMaskStep(x: nat, mask: nat, m: nat)
    requires m > 0 && BitAnd(x / 2, mask) == x / 2 - (x / 2) % m
    ensures BitAnd(x, 2 * mask) == x - x % (2 * m)
  {
    ModDouble(x, m);
    BitAndStep(x, 2 * mask);
    assert (2 * mask) / 2 == mask && (2 * mask) % 2 == 0;
  }

  lemma {:induction false} HighMask(x: nat, k: nat, width: nat)
    requires k <= width && x < Pow2(width)
    ensures Pow2(k) <= Pow2(width)
    ensures BitAnd(x, Pow2(width) - Pow2(k)) == x - x % Pow2(k)
  {
    hide BitAnd;
    if k == 0 {
      LowMask(x, width);
      ModUnique(x, 0, x, Pow2(width));
    } else {
      HighMask(x / 2, k - 1, width - 1);
      HighMaskStep(x, Pow2(width - 1) - Pow2(k - 1), Pow2(k - 1));
    }
  }

  // ------------------------------------------------------------ test data

  const BLOCK_SIZE: nat := 4096

  /** The byte the test data holds at file position `p`: 97 is 'a' and 49 is '1'. */
  function PatternByte(p: nat): byte {
    if p % 32 < 26 then 97 + p % 32 else 49 + (p % 32 - 26)
  }

  function PatternBytes(at: nat, count: nat): (s: seq<byte>)
    ensures |s| == count
    ensures forall i :: 0 <= i < count ==> s[i] == PatternByte(at + i)
  {
    seq<byte>(count, i requires 0 <= i => PatternByte(at + i))
  }

  /** kTestDataBlock: 4096 bytes of test data and a terminating byte. */
  function TestDataBlock(): (block: seq<byte>)
    ensures |block| == BLOCK_SIZE + 1
    ensures forall i :: 0 <= i < BLOCK_SIZE ==> block[i] == PatternByte(i)
  {
    PatternBytes(0, BLOCK_SIZE) + [0]
  }

  function Repeat(unit: seq<byte>, times: nat): seq<byte> {
    if times == 0 then [] else unit + Repeat(unit, times - 1)
  }

  /** The 32 bytes of "abcdefghijklmnopqrstuvwxyz123456". */
  const UNIT: seq<byte> :=
    [97, 98, 99, 100, 101, 102, 103, 104, 105, 106, 107, 108, 109, 110, 111, 112,
     113, 114, 115, 116, 117, 118, 119, 120, 121, 122, 49, 50, 51, 52, 53, 54]

  lemma UnitLetters()
    ensures |UNIT| == 32
    ensures forall i | 0 <= i < 26 :: UNIT[i] == 97 + i
    ensures forall i | 26 <= i < 32 :: UNIT[i] == 23 + i
  {
  }

  lemma PatternIsUnit(p: nat)
    ensures |UNIT| == 32 && PatternByte(p) == UNIT[p % 32]
  {
    hide UNIT;
    UnitLetters();
  }

  lemma {:induction false} RepeatAt(times: nat, i: nat)
    requires i < 32 * times
    ensures |UNIT| == 32 && |Repeat(UNIT, times)| == 32 * times && Repeat(UNIT, times)[i] == UNIT[i % 32]
  {
    hide UNIT;
    UnitLetters();
    var rest := Repeat(UNIT, times - 1);
    assert Repeat(UNIT, times) == UNIT + rest;
    if times > 1 {
      RepeatAt(times - 1, if i < 32 then 0 else i - 32);
    } else {
      assert rest == [];
    }
    if i >= 32 {
      ModShift(i - 32, 1, 32);
    }
  }

  /** The REP macros: repeating the 32-byte unit gives the pattern. */
  lemma RepeatedUnit(times: nat)
    ensures Repeat(UNIT, times) == PatternBytes(0, 32 * times)
  {
    hide UNIT, PatternByte, Repeat;
    RepeatedSize(times);
    forall i | 0 <= i < 32 * times
      ensures Repeat(UNIT, times)[i] == PatternByte(i)
    {
      RepeatAt(times, i);
      PatternIsUnit(i);
    }
  }

  lemma RepeatedSize(times: nat)
    ensures |Repeat(UNIT, times)| == 32 * times
  {
    hide UNIT;
    if times > 0 {
      RepeatAt(times, 0);
    }
  }

  /** The block of the source: REP(1, 2, 8, ..) of the unit, and the terminating byte. */
  lemma BlockIsRepeatedUnit()
    ensures TestDataBlock() == Repeat(UNIT, 128) + [0]
  {
    hide Repeat, UNIT;
    RepeatedUnit(128);
  }

  /** What the block holds from `from` on is the pattern of any position in step with `from`. */
  lemma BlockBytes(from: nat, count: nat, at: nat)
    requires from == at % BLOCK_SIZE && from + count <= BLOCK_SIZE
    ensures |TestDataBlock()| == BLOCK_SIZE + 1
    ensures TestDataBlock()[from..from + count] == PatternBytes(at, count)
  {
    var data := TestDataBlock()[from..from + count];
    forall i | 0 <= i < count
      ensures data[i] == PatternByte(at + i)
    {
      SameUnit(at, i);
    }
  }

  lemma SameUnit(at: nat, i: nat)
    ensures (at % BLOCK_SIZE + i) % 32 == (at + i) % 32
  {
    var page := 128 * (at / BLOCK_SIZE);
    assert at == 32 * page + at % BLOCK_SIZE;
    ModShift(at % BLOCK_SIZE + i, page, 32);
  }

  lemma ModShift(x: nat, q: nat, m: nat)
    requires m > 0
    ensures (m * q + x) % m == x % m
  {
    ModUnique(m * q + x, q + x / m, x % m, m);
  }

  // -------------------------------------------------------- specification

  /** The positions the first `n` bytes of a write at 32-bit `offset` land on. */
  predicate Covered(p: nat, offset: nat, n: nat) {
    if offset + n <= TWO_32 then offset <= p < offset + n
    else offset <= p < TWO_32 || p < offset + n - TWO_32
  }

  function Extent(length: nat, offset: nat, n: nat): nat {
    if n == 0 then length else Max(length, Min(offset + n, TWO_32))
  }

  /** A file after the first `n` bytes of test data were written at `offset`. */
  function Tiled(before: seq<byte>, offset: nat, n: nat): (after: seq<byte>)
  {
    seq(Extent(|before|, offset, n), p requires 0 <= p =>
      if Covered(p, offset, n) then PatternByte(p) else if p < |before| then before[p] else 0)
  }

  /** What the header promises: `size` bytes of the pattern at `offset`, nothing else touched. */
  function Requested(before: seq<byte>, offset: nat, size: nat): seq<byte> {
    Splice(before, offset, PatternBytes(offset, size))
  }

  /** One pwrite out of the block extends the tiling, wherever in 32 bits it starts. */
  lemma TileStep(before: seq<byte>, offset: nat, n: nat, at: nat, from: nat, count: nat)
    requires offset < TWO_32 && n + count <= TWO_32
    requires at == Add32(offset, n) && from == at % BLOCK_SIZE && from + count <= BLOCK_SIZE
    ensures from + count <= |TestDataBlock()|
    ensures Splice(Tiled(before, offset, n), at, TestDataBlock()[from..from + count])
         == Tiled(before, offset, n + count)
  {
    BlockBytes(from, count, at);
    TileExtends(before, offset, n, at, count);
  }

  lemma TileExtends(before: seq<byte>, offset: nat, n: nat, at: nat, count: nat)
    requires offset < TWO_32 && n + count <= TWO_32
    requires at == Add32(offset, n) && at + count <= TWO_32
    ensures Splice(Tiled(before, offset, n), at, PatternBytes(at, count)) == Tiled(before, offset, n + count)
  {
    if count > 0 {
      var was, now := Tiled(before, offset, n), Tiled(before, offset, n + count);
      assert at == if offset + n < TWO_32 then offset + n else offset + n - TWO_32;
      forall p | 0 <= p < |now|
        ensures Splice(was, at, PatternBytes(at, count))[p] == now[p]
      {
        assert Covered(p, offset, n + count) <==> Covered(p, offset, n) || at <= p < at + count;
      }
    }
  }

  // ------------------------------------------------------------- WriteData

  /** One pwrite of `count` bytes out of the block, starting `from` bytes into it. */
  method PwriteBlock(fd: File, ghost before: seq<byte>, offset: nat, numWritten: nat, from: nat, count: nat)
    returns (res: int)
    requires offset < TWO_32 && numWritten + count <= TWO_32
    requires from == Add32(offset, numWritten) % BLOCK_SIZE && from + count <= BLOCK_SIZE
    requires fd.content == Tiled(before, offset, numWritten)
    modifies fd`content, fd`stalls
    ensures -1 <= res <= count
    ensures !fd.faulty ==> res >= 0
    ensures fd.stalls <= old(fd.stalls)
    ensures res == 0 && count > 0 ==> fd.stalls < old(fd.stalls)
    ensures fd.content == Tiled(before, offset, numWritten + Max(res, 0))
  {
    hide Tiled, Splice, TestDataBlock, PatternByte;
    TileStep(before, offset, numWritten, Add32(offset, numWritten), from, count);
    var data := TestDataBlock()[from..from + count];
    res := fd.Pwrite(data, Add32(offset, numWritten));
    if res >= 0 {
      assert data[..res] == TestDataBlock()[from..from + res];
      TileStep(before, offset, numWritten, Add32(offset, numWritten), from, res);
    }
  }

  /** The unaligned start: `toWrite` bytes that end at or before the next block boundary. */
  method WriteHead(fd: File, ghost before: seq<byte>, offset: nat, toWrite: nat)
    returns (res: int, numWritten: nat)
    requires offset < TWO_32 && toWrite <= Head(offset)
    requires fd.content == Tiled(before, offset, 0)
    modifies fd`content, fd`stalls
    ensures res <= 0 && numWritten <= toWrite
    ensures fd.content == Tiled(before, offset, numWritten)
    ensures res == 0 ==> numWritten == toWrite
    ensures !fd.faulty ==> res == 0
  {
    hide Tiled, BitAnd;
    numWritten := 0;
    while numWritten < toWrite
      invariant numWritten <= toWrite
      invariant fd.content == Tiled(before, offset, numWritten)
      decreases toWrite - numWritten, fd.stalls
    {
      HeadPosition(offset, numWritten);
      Masks(Add32(numWritten, offset));
      var modOffset := BitAnd(Add32(numWritten, offset), BLOCK_SIZE - 1);
      assert modOffset < BLOCK_SIZE;
      var r := PwriteBlock(fd, before, offset, numWritten, modOffset, toWrite - numWritten);
      if r < 0 {
        return r, numWritten;
      }
      numWritten := numWritten + r;
    }
    return 0, numWritten;
  }

  /** The full pages, from the block boundary at `head` on. */
  method WritePages(fd: File, ghost before: seq<byte>, offset: nat, head: nat, alignedSize: nat)
    returns (res: int, numWritten: nat)
    requires offset < TWO_32 && alignedSize % BLOCK_SIZE == 0 && head + alignedSize <= TWO_32
    requires alignedSize > 0 ==> head == Head(offset)
    requires fd.content == Tiled(before, offset, head)
    modifies fd`content, fd`stalls
    ensures res <= 0 && head <= numWritten <= head + alignedSize
    ensures fd.content == Tiled(before, offset, numWritten)
    ensures res == 0 ==> numWritten == head + alignedSize
    ensures !fd.faulty ==> res == 0
  {
    hide Tiled, BitAnd, Add32;
    numWritten := head;
    var alignedWritten := 0;
    while alignedWritten < alignedSize
      invariant alignedWritten <= alignedSize && numWritten == head + alignedWritten
      invariant fd.content == Tiled(before, offset, numWritten)
      decreases alignedSize - alignedWritten, fd.stalls
    {
      Masks(alignedWritten);
      BlockPosition(offset, numWritten, alignedWritten);
      PageFits(alignedWritten, alignedSize);
      var modOffset := BitAnd(alignedWritten, BLOCK_SIZE - 1);
      var r := PwriteBlock(fd, before, offset, numWritten, modOffset, BLOCK_SIZE - modOffset);
      if r < 0 {
        return r, numWritten;
      }
      numWritten := numWritten + r;
      alignedWritten := alignedWritten + r;
    }
    return 0, numWritten;
  }

  /** The last partial page, from the block boundary at `start` on. */
  method WriteTail(fd: File, ghost before: seq<byte>, offset: nat, start: nat, size: nat)
    returns (res: int, numWritten: nat)
    requires offset < TWO_32 && start <= size < TWO_32 && size - start < BLOCK_SIZE
    requires start < size ==> start >= Head(offset) && (start - Head(offset)) % BLOCK_SIZE == 0
    requires fd.content == Tiled(before, offset, start)
    modifies fd`content, fd`stalls
    ensures res <= 0 && start <= numWritten <= size
    ensures fd.content == Tiled(before, offset, numWritten)
    ensures res == 0 ==> numWritten == size
    ensures !fd.faulty ==> res == 0
  {
    hide Tiled, BitAnd, Add32;
    numWritten := start;
    var endWritten := 0;
    while numWritten < size
      invariant numWritten == start + endWritten <= size
      invariant fd.content == Tiled(before, offset, numWritten)
      decreases size - numWritten, fd.stalls
    {
      assert endWritten < BLOCK_SIZE;
      Masks(endWritten);
      TailPosition(start - Head(offset), endWritten);
      BlockPosition(offset, numWritten, start - Head(offset) + endWritten);
      var modOffset := BitAnd(endWritten, BLOCK_SIZE - 1);
      var r := PwriteBlock(fd, before, offset, numWritten, modOffset, size - numWritten);
      if r < 0 {
        return r, numWritten;
      }
      numWritten := numWritten + r;
      endWritten := endWritten + r;
    }
    return 0, numWritten;
  }

  lemma StartTiled(before: seq<byte>, offset: nat)
    requires offset < TWO_32
    ensures Tiled(before, offset, 0) == before
  {
  }

  /**
   Three phases of writes. On success all `size` bytes are in place; after an error exactly the
   first `written` of them are. Positions are taken modulo 2^32, as the unsigned sum takes them.
   */
  method WriteData(fd: File, offset: nat, size: nat) returns (res: int, ghost written: nat)
    requires offset < TWO_32 && size < TWO_32
    modifies fd`content, fd`stalls
    ensures res <= 0 && written <= size
    ensures fd.content == Tiled(old(fd.content), offset, written)
    ensures res == 0 ==> written == size
    ensures !fd.faulty ==> res == 0
    ensures |UNIT| == 32
    ensures forall p | 0 <= p < |fd.content| && p < TWO_32 && (p - offset) % TWO_32 < written ::
      fd.content[p] == UNIT[p % 32]
    ensures forall p | 0 <= p < |fd.content| && (p >= TWO_32 || (p - offset) % TWO_32 >= written) ::
      fd.content[p] == if p < |old(fd.content)| then old(fd.content)[p] else 0
    ensures |fd.content| ==
      if written == 0 then |old(fd.content)| else Max(|old(fd.content)|, Min(offset + written, TWO_32))
  {
    hide Tiled;
    res, written := WriteThreePhases(fd, offset, size);
    TiledBytes(old(fd.content), offset, written);
  }

  /** Where the tiling puts which byte. */
  lemma TiledBytes(before: seq<byte>, offset: nat, n: nat)
    requires offset < TWO_32 && n < TWO_32
    ensures var after := Tiled(before, offset, n);
      && |after| == (if n == 0 then |before| else Max(|before|, Min(offset + n, TWO_32))) && |UNIT| == 32
      && (forall p | 0 <= p < |after| && p < TWO_32 && (p - offset) % TWO_32 < n :: after[p] == UNIT[p % 32])
      && (forall p | 0 <= p < |after| && (p >= TWO_32 || (p - offset) % TWO_32 >= n) ::
            after[p] == if p < |before| then before[p] else 0)
  {
    hide UNIT, PatternByte;
    var after := Tiled(before, offset, n);
    UnitLetters();
    forall p | 0 <= p < |after| && p < TWO_32 && (p - offset) % TWO_32 < n
      ensures after[p] == UNIT[p % 32]
    {
      CoveredIs(p, offset, n);
      PatternIsUnit(p);
    }
    forall p | 0 <= p < |after| && (p >= TWO_32 || (p - offset) % TWO_32 >= n)
      ensures after[p] == if p < |before| then before[p] else 0
    {
      CoveredIs(p, offset, n);
    }
  }

  lemma CoveredIs(p: nat, offset: nat, n: nat)
    requires offset < TWO_32 && n < TWO_32
    ensures Covered(p, offset, n) <==> p < TWO_32 && (p - offset) % TWO_32 < n
  {
    if p < TWO_32 {
      assert (p - offset) % TWO_32 == if p >= offset then p - offset else p - offset + TWO_32;
    }
  }

  method WriteThreePhases(fd: File, offset: nat, size: nat) returns (res: int, ghost written: nat)
    requires offset < TWO_32 && size < TWO_32
    modifies fd`content, fd`stalls
    ensures res <= 0 && written <= size
    ensures fd.content == Tiled(old(fd.content), offset, written)
    ensures res == 0 ==> written == size
    ensures !fd.faulty ==> res == 0
  {
    hide Tiled, BitAnd, BitNot, Head, Add32, Sub32;
    StartTiled(fd.content, offset);
    ghost var before := fd.content;
    RoundUp(offset);
    var roundedOffset := BitAnd(Add32(offset, BLOCK_SIZE - 1), BitNot(BLOCK_SIZE - 1));
    var gap := Sub32(roundedOffset, offset);
    AlignedPart(size, gap);
    var alignedSize := if size >= BLOCK_SIZE
                       then BitAnd(Sub32(size, gap), BitNot(BLOCK_SIZE - 1))
                       else 0;
    var numWritten := 0;

    if roundedOffset != offset {
      var toWrite := if size < gap then size else gap;
      res, numWritten := WriteHead(fd, before, offset, toWrite);
      if res < 0 {
        return res, numWritten;
      }
    }
    assert numWritten == Min(size, gap);

    res, numWritten := WritePages(fd, before, offset, numWritten, alignedSize);
    if res < 0 {
      return res, numWritten;
    }
    if numWritten == size {
      return 0, numWritten;
    }
    res, numWritten := WriteTail(fd, before, offset, numWritten, size);
    return res, numWritten;
  }

  /** Full pages leave a tail shorter than a page. */
  lemma AlignedPart(size: nat, gap: nat)
    requires size < TWO_32 && gap < BLOCK_SIZE
    ensures var alignedSize := BitAnd(Sub32(size, gap), BitNot(BLOCK_SIZE - 1));
      && alignedSize % BLOCK_SIZE == 0
      && (size >= BLOCK_SIZE ==> gap + alignedSize <= size < gap + alignedSize + BLOCK_SIZE)
  {
    hide BitAnd, BitNot;
    var rest := Sub32(size, gap);
    Masks(rest);
    assert size >= BLOCK_SIZE ==> rest == size - gap;
    WholePages(rest);
  }

  lemma WholePages(n: nat)
    ensures (n - n % BLOCK_SIZE) % BLOCK_SIZE == 0 && n - n % BLOCK_SIZE <= n < n - n % BLOCK_SIZE + BLOCK_SIZE
  {
  }

  lemma PageFits(done: nat, pages: nat)
    requires pages % BLOCK_SIZE == 0 && done < pages
    ensures done + (BLOCK_SIZE - done % BLOCK_SIZE) <= pages
  {
  }

  lemma TailPosition(pages: nat, done: nat)
    requires pages % BLOCK_SIZE == 0 && done < BLOCK_SIZE
    ensures (pages + done) % BLOCK_SIZE == done % BLOCK_SIZE == done
  {
  }

  /** The two masks of the code are the rest and the multiple of 4096. */
  lemma Masks(x: nat)
    requires x < TWO_32
    ensures BitAnd(x, BLOCK_SIZE - 1) == x % BLOCK_SIZE
    ensures BitAnd(x, BitNot(BLOCK_SIZE - 1)) == x - x % BLOCK_SIZE
  {
    Pow2Values();
    LowMask(x, 12);
    HighMask(x, 12, 32);
  }

  lemma Pow2Values()
    ensures Pow2(12) == BLOCK_SIZE && Pow2(32) == TWO_32
  {
    assert Pow2(4) == 16;
    assert Pow2(8) == 256;
    assert Pow2(12) == 4096;
    assert Pow2(16) == 0x1_0000;
    assert Pow2(20) == 0x10_0000;
    assert Pow2(24) == 0x100_0000;
    assert Pow2(28) == 0x1000_0000;
  }

  /** Bytes from `offset` to the next block boundary. */
  function Head(offset: nat): nat {
    if offset % BLOCK_SIZE == 0 then 0 else BLOCK_SIZE - offset % BLOCK_SIZE
  }

  /** Rounding up wraps to 0 in the last block, and still gives the distance to the boundary. */
  lemma HeadLength(offset: nat)
    requires offset < TWO_32
    ensures var up := Add32(offset, BLOCK_SIZE - 1);
      Sub32(up - up % BLOCK_SIZE, offset) == Head(offset) && (up - up % BLOCK_SIZE == offset <==> Head(offset) == 0)
  {
    var up, rest := Add32(offset, BLOCK_SIZE - 1), offset % BLOCK_SIZE;
    if rest == 0 {
      assert up == offset + (BLOCK_SIZE - 1) && up % BLOCK_SIZE == BLOCK_SIZE - 1;
    } else if offset + (BLOCK_SIZE - 1) < TWO_32 {
      assert up == offset + (BLOCK_SIZE - 1) && up % BLOCK_SIZE == rest - 1;
    } else {
      assert up == offset + (BLOCK_SIZE - 1) - TWO_32 && up % BLOCK_SIZE == rest - 1;
    }
  }

  lemma RoundUp(offset: nat)
    requires offset < TWO_32
    ensures var up := BitAnd(Add32(offset, BLOCK_SIZE - 1), BitNot(BLOCK_SIZE - 1));
      Sub32(up, offset) == Head(offset) < BLOCK_SIZE && (up == offset <==> Head(offset) == 0)
  {
    Masks(Add32(offset, BLOCK_SIZE - 1));
    HeadLength(offset);
  }

  lemma HeadPosition(offset: nat, n: nat)
    requires offset < TWO_32 && n < Head(offset)
    ensures Add32(n, offset) == Add32(offset, n) == offset + n
    ensures Add32(offset, n) % BLOCK_SIZE + (Head(offset) - n) == BLOCK_SIZE
  {
  }

  lemma BlockPosition(offset: nat, n: nat, aligned: nat)
    requires offset < TWO_32 && n == Head(offset) + aligned
    ensures Add32(offset, n) % BLOCK_SIZE == aligned % BLOCK_SIZE
  {
  }

  /**
   The header's promise is met from every starting content if and only if the request ends
   within 32 bits; past that the tail lands at the start of the file.
   */
  lemma WriteDataMeetsRequest(offset: nat, size: nat)
    requires offset < TWO_32 && size < TWO_32
    ensures (forall before :: Tiled(before, offset, size) == Requested(before, offset, size))
       <==> offset + size <= TWO_32
  {
    if offset + size <= TWO_32 {
      forall before
        ensures Tiled(before, offset, size) == Requested(before, offset, size)
      {
      }
    } else {
      assert |Tiled([], offset, size)| == TWO_32 < |Requested([], offset, size)|;
    }
  }

  // --------------------------------------------------------- WriteDataMmap

  /** The end of the page that `n` bytes from a page start end in. */
  function PageEnd(n: nat): (r: nat)
    ensures r >= n
  {
    n + Head(n)
  }

  /**
   A store through a shared mapping, at a position of the mapped file. It faults past the mapping
   and past the last page of the file; what lies in that page past the end of the file is lost.
   */
  method StoreMapped(fd: File, mappingEnd: nat, at: nat, src: seq<byte>) returns (ok: bool)
    modifies fd`content
    ensures ok <==> at + |src| <= mappingEnd && at + |src| <= PageEnd(|old(fd.content)|)
    ensures fd.content == if ok then Poke(old(fd.content), at, src) else old(fd.content)
  {
    ok := at + |src| <= mappingEnd && at + |src| <= PageEnd(|fd.content|);
    if ok {
      fd.content := Poke(fd.content, at, src);
    }
  }

  /** How many bytes the copy loop takes next, and where its unsigned counter stands after `k` passes. */
  function ToWrite(n: nat, length: nat): nat {
    if Add32(n, BLOCK_SIZE) > length then Sub32(length, n) else BLOCK_SIZE
  }

  function Counter(k: nat, length: nat): nat {
    if k == 0 then 0 else Add32(Counter(k - 1, length), ToWrite(Counter(k - 1, length), length))
  }

  ghost predicate CopyEnds(length: nat) {
    exists k :: Counter(k, length) == length
  }

  lemma NextPage(n: nat, length: nat)
    requires n % BLOCK_SIZE == 0 && n < length < TWO_32
    ensures ToWrite(n, length) == if length - n < BLOCK_SIZE && n + BLOCK_SIZE < TWO_32 then length - n else BLOCK_SIZE
    ensures Add32(n, ToWrite(n, length)) == if n + BLOCK_SIZE < TWO_32 then Min(n + BLOCK_SIZE, length) else 0
    ensures length <= TWO_32 - BLOCK_SIZE ==> n + BLOCK_SIZE < TWO_32
    ensures (n + BLOCK_SIZE) % BLOCK_SIZE == 0
  {
  }

  lemma {:induction false} CounterAt(k: nat, length: nat)
    requires length < TWO_32
    ensures length <= TWO_32 - BLOCK_SIZE && k * BLOCK_SIZE < length + BLOCK_SIZE ==>
      Counter(k, length) == Min(k * BLOCK_SIZE, length)
    ensures length > TWO_32 - BLOCK_SIZE ==> Counter(k, length) < length && Counter(k, length) % BLOCK_SIZE == 0
  {
    hide ToWrite, Add32;
    if k > 0 {
      CounterAt(k - 1, length);
      var n := Counter(k - 1, length);
      if n < length && n % BLOCK_SIZE == 0 {
        NextPage(n, length);
      }
    }
  }

  /** The unsigned counter reaches its target unless a full page takes it past 2^32 first. */
  lemma CopyEndsExactly(length: nat)
    requires length < TWO_32
    ensures CopyEnds(length) <==> length <= TWO_32 - BLOCK_SIZE
  {
    hide Counter;
    if length <= TWO_32 - BLOCK_SIZE {
      var k := (length + BLOCK_SIZE - 1) / BLOCK_SIZE;
      CounterAt(k, length);
      assert Counter(k, length) == length;
    } else if k :| Counter(k, length) == length {
      CounterAt(k, length);
      assert false;
    }
  }

  lemma CounterStart(length: nat)
    ensures Counter(0, length) == 0
  {
  }

  lemma Reached(k: nat, length: nat)
    requires Counter(k, length) == length
    ensures CopyEnds(length)
  {
  }

  /** One pass of the copy loop that has not reached its length. */
  lemma CounterStep(k: nat, length: nat)
    requires length < TWO_32 && Counter(k, length) != length
    requires CopyEnds(length) ==> k * BLOCK_SIZE < length + BLOCK_SIZE
    ensures var n := Counter(k, length);
      && n % BLOCK_SIZE == 0 && ToWrite(n, length) <= BLOCK_SIZE
      && Counter(k + 1, length) == Add32(n, ToWrite(n, length))
      && (CopyEnds(length) ==>
            n == k * BLOCK_SIZE < length && Counter(k + 1, length) == n + ToWrite(n, length) <= length)
  {
    hide ToWrite, Add32;
    CopyEndsExactly(length);
    CounterAt(k, length);
    CounterAt(k + 1, length);
    NextPage(Counter(k, length), length);
  }

  /** A file into which the repeated block was copied at `start`. */
  function Copied(first: seq<byte>, start: nat, n: nat): (after: seq<byte>)
    ensures |after| == |first|
  {
    Poke(first, start, PatternBytes(0, n))
  }

  /** What the two copies leave: the second starts `Head(offset)` into the first mapped page. */
  function Mapped(before: seq<byte>, offset: nat, size: nat): (after: seq<byte>)
    requires Head(offset) <= size
    ensures |after| == |before|
  {
    Copied(Poke(before, offset, PatternBytes(offset, Head(offset))),
           offset - offset % BLOCK_SIZE + Head(offset), size - Head(offset))
  }

  /** The rest of the first page, from `offset` on. */
  method FirstPage(fd: File, mappingEnd: nat, pageStart: nat, offset: nat) returns (ok: bool)
    requires offset < TWO_32 && offset % BLOCK_SIZE != 0 && pageStart == offset - offset % BLOCK_SIZE
    modifies fd`content
    ensures ok <==> offset + Head(offset) <= mappingEnd && offset + Head(offset) <= PageEnd(|old(fd.content)|)
    ensures ok ==> fd.content == Poke(old(fd.content), offset, PatternBytes(offset, Head(offset)))
  {
    Masks(offset);
    var testDataOffset := BitAnd(offset, BLOCK_SIZE - 1);
    BlockBytes(testDataOffset, BLOCK_SIZE - testDataOffset, offset);
    ok := StoreMapped(fd, mappingEnd, pageStart + BitAnd(offset, BLOCK_SIZE - 1),
                      TestDataBlock()[testDataOffset..testDataOffset + (BLOCK_SIZE - testDataOffset)]);
  }

  lemma PageCopy(first: seq<byte>, start: nat, n: nat, count: nat)
    requires n % BLOCK_SIZE == 0 && count <= BLOCK_SIZE
    ensures count <= |TestDataBlock()|
    ensures Poke(Copied(first, start, n), start + n, TestDataBlock()[..count]) == Copied(first, start, n + count)
  {
    BlockBytes(0, count, n);
    assert TestDataBlock()[0..count] == TestDataBlock()[..count];
  }

  lemma NothingCopied(first: seq<byte>, start: nat)
    ensures Copied(first, start, 0) == first
  {
  }

  method CopyPage(fd: File, mappingEnd: nat, ghost first: seq<byte>, start: nat, n: nat, count: nat)
    returns (ok: bool)
    requires n % BLOCK_SIZE == 0 && count <= BLOCK_SIZE
    modifies fd`content
    ensures ok <==> start + n + count <= mappingEnd && start + n + count <= PageEnd(|old(fd.content)|)
    ensures |fd.content| == |old(fd.content)|
    ensures ok && old(fd.content) == Copied(first, start, n) ==> fd.content == Copied(first, start, n + count)
  {
    hide PageEnd, PatternBytes, PatternByte, TestDataBlock, Poke, Copied, Head;
    PageCopy(first, start, n, count);
    ok := StoreMapped(fd, mappingEnd, start + n, TestDataBlock()[..count]);
  }

  /**
   The block copied over and over. `passes` bounds how long the loop is watched; false means that it
   is still running then, or has faulted.
   */
  method CopyPages(fd: File, mappingEnd: nat, start: nat, length: nat, passes: nat) returns (done: bool)
    requires length < TWO_32
    modifies fd`content
    ensures done ==> CopyEnds(length) && fd.content == Copied(old(fd.content), start, length)
    ensures CopyEnds(length) && length <= passes * BLOCK_SIZE && start + length <= mappingEnd ==>
      (start + length <= PageEnd(|old(fd.content)|) ==> done)
  {
    hide PageEnd, PatternBytes, PatternByte, TestDataBlock, Poke, Copied, Add32, Sub32, CopyEnds, Counter;
    ghost var first := fd.content;
    CounterStart(length);
    var numWritten, k := 0, 0;
    NothingCopied(first, start);
    while numWritten != length
      invariant k <= passes && numWritten == Counter(k, length)
      invariant CopyEnds(length) ==> numWritten <= length
      invariant |fd.content| == |first|
      invariant CopyEnds(length) ==> k * BLOCK_SIZE < length + BLOCK_SIZE
      invariant CopyEnds(length) ==> fd.content == Copied(first, start, numWritten)
      decreases passes - k
    {
      CounterStep(k, length);
      if k == passes {
        return false;
      }
      var toWrite := if Add32(numWritten, BLOCK_SIZE) > length then Sub32(length, numWritten) else BLOCK_SIZE;
      var ok := CopyPage(fd, mappingEnd, first, start, numWritten, toWrite);
      if !ok {
        return false;
      }
      numWritten := Add32(numWritten, toWrite);
      k := k + 1;
    }
    Reached(k, length);
    return true;
  }

  /** A request that ends before the first page boundary leaves a length the loop never reaches. */
  lemma ShortRequest(offset: nat, size: nat)
    requires size < TWO_32
    ensures Sub32(size, Head(offset)) < TWO_32
    ensures Head(offset) <= size ==> Sub32(size, Head(offset)) == size - Head(offset)
    ensures Head(offset) > size > 0 ==> !CopyEnds(Sub32(size, Head(offset)))
  {
    CopyEndsExactly(Sub32(size, Head(offset)));
  }

  /** msync is asked for no page behind those that were mapped, where it may fail. */
  predicate SyncsMapping(offset: nat, size: nat) {
    PageEnd(Add32(size, offset % BLOCK_SIZE)) <= PageEnd(size)
  }

  /**
   None is a call that has not returned: it faulted, or still copies after `passes` passes. mmap fails
   on size 0; on a faulty file mmap and msync may fail, msync after the data is in place.
   */
  method WriteDataMmap(fd: File, offset: nat, size: nat, passes: nat) returns (res: Option<int>)
    requires offset < TWO_32 && size < TWO_32
    modifies fd`content
    ensures res.Some? ==> res.value == 0 || res.value == -1
    ensures size == 0 ==> res == Some(-1)
    ensures !fd.faulty && size > 0 && SyncsMapping(offset, size) && res.Some? ==> res.value == 0
    ensures res.Some? ==>
      || (res.value == -1 && fd.content == old(fd.content) && (fd.faulty || size == 0))
      || (MmapReturns(offset, size) && fd.content == Mapped(old(fd.content), offset, size))
    ensures CopyEnds(Sub32(size, Head(offset))) && offset + size <= PageEnd(|old(fd.content)|) ==>
      (size <= passes * BLOCK_SIZE ==> res.Some?)
    ensures res == Some(0) ==> |fd.content| == |old(fd.content)| && |UNIT| == 32
    ensures res == Some(0) && offset + size <= |fd.content| && (offset % 4096 == 0 || offset % 4096 + size == 4096) ==>
      forall p | 0 <= p < |fd.content| ::
        fd.content[p] == if offset <= p < offset + size then UNIT[p % 32] else old(fd.content)[p]
    ensures res == Some(0) ==>
      var head := (4096 - offset % 4096) % 4096; var second := offset - offset % 4096 + head;
      forall p | 0 <= p < |fd.content| ::
        fd.content[p] == if second <= p < second + (size - head) then UNIT[(p - second) % 32]
                         else if offset <= p < offset + head then UNIT[p % 32]
                         else old(fd.content)[p]
  {
    hide Mapped, MmapReturns, CopyEnds, PageEnd, SyncsMapping;
    ghost var before := fd.content;
    res := MapAndCopy(fd, offset, size, passes);
    if res == Some(0) {
      MappedBytes(before, offset, size);
    }
  }

  /** Where the two copies put which byte. */
  lemma MappedBytes(before: seq<byte>, offset: nat, size: nat)
    requires MmapReturns(offset, size)
    ensures Head(offset) <= size && |UNIT| == 32
    ensures var after := Mapped(before, offset, size);
      var head := (4096 - offset % 4096) % 4096; var second := offset - offset % 4096 + head;
      forall p | 0 <= p < |before| ::
        after[p] == if second <= p < second + (size - head) then UNIT[(p - second) % 32]
                    else if offset <= p < offset + head then UNIT[p % 32]
                    else before[p]
    ensures offset % 4096 == 0 || offset % 4096 + size == 4096 ==>
      forall p | 0 <= p < |before| ::
        Mapped(before, offset, size)[p] == if offset <= p < offset + size then UNIT[p % 32] else before[p]
  {
    hide UNIT, PatternByte;
    UnitLetters();
    var after := Mapped(before, offset, size);
    var head := Head(offset);
    assert head == (4096 - offset % 4096) % 4096;
    var second := offset - offset % 4096 + head;
    forall p | 0 <= p < |before|
      ensures after[p] == if second <= p < second + (size - head) then UNIT[(p - second) % 32]
                          else if offset <= p < offset + head then UNIT[p % 32]
                          else before[p]
      ensures offset % 4096 == 0 || offset % 4096 + size == 4096 ==>
        after[p] == if offset <= p < offset + size then UNIT[p % 32] else before[p]
    {
      PatternIsUnit(p);
      if second <= p {
        PatternIsUnit(p - second);
        if offset % 4096 == 0 {
          SameUnit(offset, p - offset);
        }
      }
    }
  }

  method MapAndCopy(fd: File, offset: nat, size: nat, passes: nat) returns (res: Option<int>)
    requires offset < TWO_32 && size < TWO_32
    modifies fd`content
    ensures res.Some? ==> res.value == 0 || res.value == -1
    ensures size == 0 ==> res == Some(-1)
    ensures !fd.faulty && size > 0 && SyncsMapping(offset, size) && res.Some? ==> res.value == 0
    ensures res.Some? ==>
      || (res.value == -1 && fd.content == old(fd.content) && (fd.faulty || size == 0))
      || (MmapReturns(offset, size) && fd.content == Mapped(old(fd.content), offset, size))
    ensures CopyEnds(Sub32(size, Head(offset))) && offset + size <= PageEnd(|old(fd.content)|) ==>
      (size <= passes * BLOCK_SIZE ==> res.Some?)
  {
    hide PageEnd, PatternBytes, PatternByte, TestDataBlock, Poke, Copied, CopyEnds, SyncsMapping, Add32, Sub32, BitAnd;
    Masks(offset);
    var pageStart := BitAnd(offset, BitNot(BLOCK_SIZE - 1));
    var mapped: bool :| !fd.faulty ==> mapped;
    if size == 0 || !mapped {
      return Some(-1);
    }
    var mappingEnd := pageStart + PageEnd(size);
    ghost var before := fd.content;
    RoundUp(offset);
    ShortRequest(offset, size);
    PagesMapped(offset, size, |before|);
    var roundedOffsetDiff := Sub32(BitAnd(Add32(offset, BLOCK_SIZE - 1), BitNot(BLOCK_SIZE - 1)), offset);
    if roundedOffsetDiff != 0 {
      var ok := FirstPage(fd, mappingEnd, pageStart, offset);
      if !ok {
        return None;
      }
    } else {
      assert Poke(before, offset, PatternBytes(offset, Head(offset))) == before;
    }
    var done := CopyPages(fd, mappingEnd, pageStart + roundedOffsetDiff, Sub32(size, roundedOffsetDiff), passes);
    if !done {
      return None;
    }
    assert fd.content == Mapped(before, offset, size);
    var synced: bool :| !fd.faulty && SyncsMapping(offset, size) ==> synced;
    return if synced then Some(0) else Some(-1);
  }

  /** The first page is always mapped, and the rest up to the size. */
  lemma PagesMapped(offset: nat, size: nat, fileSize: nat)
    requires size > 0
    ensures var pageStart := offset - offset % BLOCK_SIZE;
      && pageStart + size <= pageStart + PageEnd(size)
      && (Head(offset) > 0 ==> offset + Head(offset) <= pageStart + PageEnd(size))
      && (offset + size <= PageEnd(fileSize) ==>
            pageStart + size <= PageEnd(fileSize) && (Head(offset) > 0 ==> offset + Head(offset) <= PageEnd(fileSize)))
  {
  }

  lemma AlignedPattern(offset: nat, size: nat)
    requires offset % BLOCK_SIZE == 0
    ensures PatternBytes(0, size) == PatternBytes(offset, size)
  {
    forall i | 0 <= i < size
      ensures PatternByte(offset + i) == PatternByte(i)
    {
      SameUnit(offset, i);
    }
  }

  /** The call returns, with the two copies in the file, once mmap granted the mapping. */
  ghost predicate MmapReturns(offset: nat, size: nat) {
    Head(offset) <= size && CopyEnds(size - Head(offset))
  }

  /** The call returns 0 on a sound device, and what it leaves is what the header promises. */
  ghost predicate MmapKeepsPromise(before: seq<byte>, offset: nat, size: nat) {
    && MmapReturns(offset, size) && SyncsMapping(offset, size)
    && Mapped(before, offset, size) == Requested(before, offset, size)
  }

  lemma MmapReturnsExactly(offset: nat, size: nat)
    requires size < TWO_32
    ensures MmapReturns(offset, size) <==> Head(offset) <= size <= Head(offset) + (TWO_32 - BLOCK_SIZE)
  {
    hide CopyEnds;
    if Head(offset) <= size {
      CopyEndsExactly(size - Head(offset));
    }
  }

  /** Where the data is put in place, msync stays within the mapping, in a size that does not wrap. */
  lemma RightCopiesSync(offset: nat, size: nat)
    requires 0 < size < TWO_32 && (offset % BLOCK_SIZE == 0 || size == Head(offset))
    ensures SyncsMapping(offset, size)
  {
    if offset % BLOCK_SIZE == 0 {
      assert Add32(size, 0) == size;
    } else {
      assert Add32(size, offset % BLOCK_SIZE) == BLOCK_SIZE;
    }
  }

  /**
   Through mmap the promise is met from every content of a length if and only if the file is long
   enough and the request starts on a block boundary and is no longer than the loop can count, or
   ends on the first boundary after its start. Otherwise the call does not return, or its last byte
   is not written.
   */
  lemma WriteDataMmapMeetsRequest(offset: nat, size: nat, fileSize: nat)
    requires 0 < size < TWO_32
    ensures (forall before | |before| == fileSize :: MmapKeepsPromise(before, offset, size))
       <==> offset + size <= fileSize
            && ((offset % BLOCK_SIZE == 0 && size <= TWO_32 - BLOCK_SIZE) || size == Head(offset))
  {
    hide Mapped, Requested, MmapReturns, SyncsMapping;
    MmapReturnsExactly(offset, size);
    if MmapReturns(offset, size) {
      if offset + size <= fileSize && (offset % BLOCK_SIZE == 0 || size == Head(offset)) {
        RightCopiesSync(offset, size);
        forall before | |before| == fileSize
          ensures Mapped(before, offset, size) == Requested(before, offset, size)
        {
          MappedAsRequested(before, offset, size);
        }
      } else {
        LastByteKept(offset, size, fileSize);
      }
    }
    assert |Zeros(fileSize)| == fileSize;
  }

  lemma MappedAsRequested(before: seq<byte>, offset: nat, size: nat)
    requires Head(offset) <= size && (offset % BLOCK_SIZE == 0 || size == Head(offset)) && offset + size <= |before|
    ensures Mapped(before, offset, size) == Requested(before, offset, size)
  {
    if offset % BLOCK_SIZE == 0 {
      AlignedPattern(offset, size);
      assert PatternBytes(offset, 0) == [];
    } else {
      assert PatternBytes(0, 0) == [];
    }
  }

  lemma LastByteKept(offset: nat, size: nat, fileSize: nat)
    requires Head(offset) <= size && size > 0
    requires fileSize < offset + size || (offset % BLOCK_SIZE != 0 && Head(offset) < size)
    ensures Mapped(Zeros(fileSize), offset, size) != Requested(Zeros(fileSize), offset, size)
  {
    var last := offset + size - 1;
    if last < fileSize {
      assert Requested(Zeros(fileSize), offset, size)[last] == PatternByte(offset + (size - 1));
      assert Mapped(Zeros(fileSize), offset, size)[last] == 0;
    }
  }

  /** WriteData goes on at the start of the file, mmap does not. */
  lemma WrapDiffers(offset: nat, size: nat)
    requires offset < TWO_32 && size < TWO_32 < offset + size && Head(offset) <= size
    ensures Mapped(Zeros(offset + size), offset, size) != Tiled(Zeros(offset + size), offset, size)
  {
    var zeros := Zeros(offset + size);
    assert Tiled(zeros, offset, size)[0] == PatternByte(0);
    assert Mapped(zeros, offset, size)[0] == 0;
  }

  /** The call returns and leaves the file that WriteData leaves. */
  ghost predicate MmapAgrees(before: seq<byte>, offset: nat, size: nat) {
    MmapReturns(offset, size) && Mapped(before, offset, size) == Tiled(before, offset, size)
  }

  /**
   The mapped writer returns with the file WriteData leaves, for every content that holds the request,
   if and only if the request ends within 32 bits and either starts on a block boundary and is no
   longer than the loop can count, or ends on the first boundary after its start.
   */
  lemma MmapAgreesWithWriteData(offset: nat, size: nat)
    requires offset < TWO_32 && 0 < size < TWO_32
    ensures (forall before | offset + size <= |before| :: MmapAgrees(before, offset, size))
       <==> offset + size <= TWO_32
            && ((offset % BLOCK_SIZE == 0 && size <= TWO_32 - BLOCK_SIZE) || size == Head(offset))
  {
    hide Mapped, Tiled, MmapReturns;
    MmapReturnsExactly(offset, size);
    assert |Zeros(offset + size)| == offset + size;
    if MmapReturns(offset, size) {
      SameCopies(offset, size);
    }
  }

  lemma SameCopies(offset: nat, size: nat)
    requires offset < TWO_32 && 0 < size < TWO_32 && Head(offset) <= size
    ensures var right := offset + size <= TWO_32 && (offset % BLOCK_SIZE == 0 || size == Head(offset));
      && (right ==> forall before | offset + size <= |before| ::
            Mapped(before, offset, size) == Tiled(before, offset, size))
      && (!right ==> Mapped(Zeros(offset + size), offset, size) != Tiled(Zeros(offset + size), offset, size))
  {
    hide Mapped, Tiled, Requested;
    if offset + size > TWO_32 {
      WrapDiffers(offset, size);
    } else {
      forall before
        ensures Tiled(before, offset, size) == Requested(before, offset, size)
      {
        WriteDataMeetsRequest(offset, size);
      }
      if offset % BLOCK_SIZE == 0 || size == Head(offset) {
        forall before | offset + size <= |before|
          ensures Mapped(before, offset, size) == Tiled(before, offset, size)
        {
          MappedAsRequested(before, offset, size);
        }
      } else {
        LastByteKept(offset, size, offset + size);
      }
    }
  }
}
