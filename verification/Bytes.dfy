/** Bytes, fixed-width integers and byte-range updates, as the C++ sources use them. */
module Bytes {

  type byte = x: int | 0 <= x < 256

  datatype Option<+T> = None | Some(value: T)

  const TWO_31: int := 0x8000_0000
  const TWO_32: int := 0x1_0000_0000
  const TWO_64: int := 0x1_0000_0000_0000_0000

  /** Linux never transfers more than this many bytes in one call, so a count fits an `int`. */
  const MAX_RW_COUNT: int := 0x7fff_f000

  // ---------------------------------------------------------------- integers

  /** The `int` a C++ compiler for x86-64 makes of a wider value. */
  function ToInt32(x: int): (r: int)
    ensures -TWO_31 <= r < TWO_31
    ensures (x - r) % 0x1_0000_0000 == 0
    ensures -TWO_31 <= x < TWO_31 ==> r == x
  {
    var low := x % TWO_32;
    if low < TWO_31 then low else low - TWO_32
  }

  function Pow256(width: nat): (r: nat)
    ensures r > 0
  {
    if width == 0 then 1 else 256 * Pow256(width - 1)
  }

  lemma Pow256Values()
    ensures Pow256(2) == 0x1_0000 && Pow256(4) == TWO_32 && Pow256(8) == TWO_64
  {
    assert Pow256(2) == 256 * Pow256(1) && Pow256(1) == 256;
    assert Pow256(4) == 256 * Pow256(3) && Pow256(3) == 256 * Pow256(2);
    assert Pow256(8) == 256 * Pow256(7) && Pow256(7) == 256 * Pow256(6);
    assert Pow256(6) == 256 * Pow256(5) && Pow256(5) == 256 * Pow256(4);
  }

  /** `width` bytes, most significant first: htobe16/htobe64 followed by memcpy. */
  function ToBE(v: nat, width: nat): (s: seq<byte>)
    ensures |s| == width
  {
    if width == 0 then [] else ToBE(v / 256, width - 1) + [v % 256]
  }

  function FromBE(s: seq<byte>): nat {
    if s == [] then 0 else 256 * FromBE(s[..|s| - 1]) + s[|s| - 1]
  }

  lemma {:induction false} BigEndianRoundTrip(v: nat, width: nat)
    requires v < Pow256(width)
    ensures FromBE(ToBE(v, width)) == v
  {
    if width > 0 {
      BigEndianRoundTrip(v / 256, width - 1);
      assert ToBE(v, width)[..width - 1] == ToBE(v / 256, width - 1);
    }
  }

  /** What two and eight bytes, most significant first, stand for. */
  lemma BigEndianValue(s: seq<byte>)
    ensures |s| == 2 ==> FromBE(s) == 0x100 * (s[0] as int) + s[1] as int
    ensures |s| == 8 ==>
      FromBE(s) == 0x100_0000_0000_0000 * (s[0] as int) + 0x1_0000_0000_0000 * (s[1] as int)
                   + 0x100_0000_0000 * (s[2] as int) + 0x1_0000_0000 * (s[3] as int)
                   + 0x100_0000 * (s[4] as int) + 0x1_0000 * (s[5] as int) + 0x100 * (s[6] as int) + s[7] as int
  {
    if |s| == 2 {
      EndOfBE(s, 2);
      EndOfBE(s, 1);
    } else if |s| == 8 {
      for i := 0 to 8
        invariant forall j | 0 <= j < i :: FromBE(s[..j + 1]) == 256 * FromBE(s[..j]) + s[j]
      {
        EndOfBE(s, i + 1);
      }
      assert s[..8] == s;
    }
  }

  lemma EndOfBE(s: seq<byte>, n: nat)
    requires 0 < n <= |s|
    ensures FromBE(s[..n]) == 256 * FromBE(s[..n - 1]) + s[n - 1]
    ensures s[..|s|] == s && FromBE(s[..0]) == 0
  {
    assert s[..n][..n - 1] == s[..n - 1];
  }

  /** `width` bytes, least significant first: the memory of an x86-64 integer. */
  function ToLE(v: nat, width: nat): (s: seq<byte>)
    ensures |s| == width
  {
    if width == 0 then [] else [v % 256] + ToLE(v / 256, width - 1)
  }

  function FromLE(s: seq<byte>): nat {
    if s == [] then 0 else s[0] + 256 * FromLE(s[1..])
  }

  lemma {:induction false} LittleEndianRoundTrip(v: nat, width: nat)
    requires v < Pow256(width)
    ensures FromLE(ToLE(v, width)) == v
  {
    if width > 0 {
      LittleEndianRoundTrip(v / 256, width - 1);
      assert ToLE(v, width)[1..] == ToLE(v / 256, width - 1);
    }
  }

  /** What four and eight bytes, least significant first, stand for. */
  lemma LittleEndianValue(s: seq<byte>)
    ensures |s| == 4 ==>
      FromLE(s) == s[0] as int + 0x100 * (s[1] as int) + 0x1_0000 * (s[2] as int) + 0x100_0000 * (s[3] as int)
    ensures |s| == 8 ==>
      FromLE(s) == s[0] as int + 0x100 * (s[1] as int) + 0x1_0000 * (s[2] as int) + 0x100_0000 * (s[3] as int)
                   + 0x1_0000_0000 * (s[4] as int) + 0x100_0000_0000 * (s[5] as int)
                   + 0x1_0000_0000_0000 * (s[6] as int) + 0x100_0000_0000_0000 * (s[7] as int)
  {
    for i := 0 to |s|
      invariant forall j | 0 <= j < i :: FromLE(s[j..]) == s[j] + 256 * FromLE(s[j + 1..])
    {
      assert s[i..][1..] == s[i + 1..];
    }
    assert s[0..] == s && s[|s|..] == [];
  }

  // ------------------------------------------------------------- byte ranges

  function Max(a: int, b: int): int {
    if a < b then b else a
  }

  function Min(a: int, b: int): int {
    if a < b then a else b
  }

  function Zeros(n: nat): (s: seq<byte>)
    ensures |s| == n && forall i :: 0 <= i < n ==> s[i] == 0
  {
    seq<byte>(n, _ => 0)
  }

  lemma SliceConcat<T>(s: seq<T>, a: nat, b: nat, c: nat)
    requires a <= b <= c <= |s|
    ensures s[a..b] + s[b..c] == s[a..c]
  {
  }

  lemma SliceOfSlice<T>(s: seq<T>, a: nat, b: nat, n: nat)
    requires a <= a + n <= b <= |s|
    ensures s[a..b][..n] == s[a..a + n]
  {
  }

  /** A file after `data` is stored at `at`; a gap past the old end reads as zeros. */
  function Splice(content: seq<byte>, at: nat, data: seq<byte>): (r: seq<byte>)
    ensures |r| == if data == [] then |content| else Max(|content|, at + |data|)
    ensures forall i :: 0 <= i < |r| ==>
      r[i] == if at <= i < at + |data| then data[i - at] else if i < |content| then content[i] else 0
  {
    if data == [] then content
    else
      seq(Max(|content|, at + |data|), i requires 0 <= i =>
        if at <= i < at + |data| then data[i - at] else if i < |content| then content[i] else 0)
  }

  lemma SpliceAtEnd(content: seq<byte>, data: seq<byte>)
    ensures Splice(content, |content|, data) == content + data
  {
  }

  /** A memory after `data` is stored at `at`; what lies past its end swallows stores. */
  function Poke(memory: seq<byte>, at: nat, data: seq<byte>): (r: seq<byte>)
    ensures |r| == |memory|
    ensures forall i :: 0 <= i < |memory| ==> r[i] == if at <= i < at + |data| then data[i - at] else memory[i]
  {
    seq(|memory|, i requires 0 <= i < |memory| => if at <= i < at + |data| then data[i - at] else memory[i])
  }

  lemma PokeTwice(memory: seq<byte>, at: nat, first: seq<byte>, second: seq<byte>)
    ensures Poke(Poke(memory, at, first), at + |first|, second) == Poke(memory, at, first + second)
  {
    var once, twice := Poke(memory, at, first), Poke(memory, at, first + second);
    forall i | 0 <= i < |memory|
      ensures Poke(once, at + |first|, second)[i] == twice[i]
    {
      if at <= i < at + |first| {
        assert (first + second)[i - at] == first[i - at];
      }
    }
  }

  lemma PokeFront(memory: seq<byte>, at: nat, src: seq<byte>)
    requires at + |src| <= |memory|
    ensures Poke(memory, at, src)[..at + |src|] == memory[..at] + src
  {
  }

  /** memcpy into a buffer. */
  method CopyInto(buf: array<byte>, at: nat, src: seq<byte>)
    requires at + |src| <= buf.Length
    modifies buf
    ensures buf[..] == Poke(old(buf[..]), at, src)
  {
    forall i | 0 <= i < |src| {
      buf[at + i] := src[i];
    }
  }
}
