/** The part of the kernel the C++ code talks to through read, write and pwrite. */
module Posix {
  import opened Bytes

  /**
   An open file. Transfers may be short. `stalls` bounds how often the kernel may still answer
   a non-empty request with 0 bytes, without which the retry loops of the callers need not end.
   A file that is not `faulty` never reports an error. A read of at most `atom` bytes is short
   only at the end of the file.
   */
  class File {
    var content: seq<byte>
    var pos: nat
    var stalls: nat
    const faulty: bool
    const atom: nat

    constructor (content: seq<byte>, stalls: nat, faulty: bool, atom: nat)
      ensures this.content == content && pos == 0 && this.stalls == stalls
      ensures this.faulty == faulty && this.atom == atom
    {
      this.content, pos := content, 0;
      this.stalls, this.faulty, this.atom := stalls, faulty, atom;
    }

    /** How many bytes a transfer of `count` moves: nothing settles it but the bounds. */
    method Transfer(count: nat) returns (res: int)
      modifies this`stalls
      ensures -1 <= res <= Min(count, MAX_RW_COUNT)
      ensures !faulty ==> res >= 0
      ensures stalls <= old(stalls)
      ensures res == 0 && count > 0 ==> stalls < old(stalls)
    {
      res :| -1 <= res <= Min(count, MAX_RW_COUNT);
      if res < 0 && !faulty {
        res := Min(count, MAX_RW_COUNT);
      }
      if res == 0 && count > 0 {
        if stalls == 0 {
          res := 1;
        } else {
          stalls := stalls - 1;
        }
      }
    }

    method Pwrite(src: seq<byte>, at: nat) returns (res: int)
      modifies this`content, this`stalls
      ensures -1 <= res <= Min(|src|, MAX_RW_COUNT)
      ensures !faulty ==> res >= 0
      ensures stalls <= old(stalls)
      ensures res == 0 && src != [] ==> stalls < old(stalls)
      ensures content == if res < 0 then old(content) else Splice(old(content), at, src[..res])
    {
      res := Transfer(|src|);
      if res >= 0 {
        content := Splice(content, at, src[..res]);
      }
    }

    method Write(src: seq<byte>) returns (res: int)
      modifies this`content, this`pos, this`stalls
      ensures -1 <= res <= Min(|src|, MAX_RW_COUNT)
      ensures !faulty ==> res >= 0
      ensures stalls <= old(stalls)
      ensures res == 0 && src != [] ==> stalls < old(stalls)
      ensures content == if res < 0 then old(content) else Splice(old(content), old(pos), src[..res])
      ensures pos == if res < 0 then old(pos) else old(pos) + res
    {
      res := Pwrite(src, pos);
      if res >= 0 {
        pos := pos + res;
      }
    }

    /** Reads at most `count` bytes into `buf` from index `at` on; 0 means end of file. */
    method Read(buf: array<byte>, at: nat, count: nat) returns (res: int)
      requires 0 < count && at + count <= buf.Length && pos <= |content|
      modifies buf, this`pos
      ensures -1 <= res <= Min(Min(count, MAX_RW_COUNT), |content| - old(pos))
      ensures !faulty ==> res >= 0
      ensures res == 0 ==> old(pos) == |content|
      ensures res >= 0 && count <= atom ==> res == Min(Min(count, MAX_RW_COUNT), |content| - old(pos))
      ensures pos == if res < 0 then old(pos) else old(pos) + res
      ensures buf[..] == if res < 0 then old(buf[..]) else Poke(old(buf[..]), at, content[old(pos)..pos])
    {
      var limit := Min(Min(count, MAX_RW_COUNT), |content| - pos);
      res :| -1 <= res <= limit;
      if (res < 0 && !faulty) || (res >= 0 && count <= atom) || (res == 0 && limit > 0) {
        res := limit;
      }
      if res >= 0 {
        CopyInto(buf, at, content[pos..pos + res]);
        pos := pos + res;
      }
    }
  }
}
