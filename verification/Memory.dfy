/**
 memcpy and memmove of student-distrib/lib.c, instruction by instruction, on a memory whose
 indices are the addresses.
 */
module Memory {
  import opened Bytes

  /** The memory after n bytes at src have been brought to dest. */
  function Moved(mem: seq<Byte>, dest: nat, src: nat, n: nat): (r: seq<Byte>)
    requires dest + n <= |mem| && src + n <= |mem|
    ensures |r| == |mem|
  {
    mem[..dest] + mem[src..src + n] + mem[dest + n..]
  }

  /** The first done bytes have been copied and every other byte is what it was. */
  ghost predicate CopiedUp(mem: array<Byte>, was: seq<Byte>, dest: nat, src: nat, done: nat)
    reads mem
  {
    && mem.Length == |was| && dest + done <= |was| && src + done <= |was|
    && (forall k :: dest <= k < dest + done ==> mem[k] == was[src + (k - dest)])
    && (forall k :: 0 <= k < |was| && !(dest <= k < dest + done) ==> mem[k] == was[k])
  }

  lemma CopiedIsMoved(mem: array<Byte>, was: seq<Byte>, dest: nat, src: nat, n: nat)
    requires CopiedUp(mem, was, dest, src, n)
    ensures mem[..] == Moved(was, dest, src, n)
  {
    assert mem[..] == Moved(was, dest, src, n);
  }

  /** The byte-wise loops of memcpy and memmove, upwards: from done bytes on to one more. */
  method CopyByte(mem: array<Byte>, ghost was: seq<Byte>, dest: nat, src: nat, done: nat)
    requires CopiedUp(mem, was, dest, src, done) && dest + done < |was| && src + done < |was|
    requires dest <= src || src + done < dest
    modifies mem
    ensures CopiedUp(mem, was, dest, src, done + 1)
  {
    mem[dest + done] := mem[src + done];
  }

  /** movsl: four bytes are read before four are written. */
  method CopyWord(mem: array<Byte>, ghost was: seq<Byte>, dest: nat, src: nat, done: nat)
    requires CopiedUp(mem, was, dest, src, done) && dest + done + 4 <= |was| && src + done + 4 <= |was|
    requires dest <= src || src + done + 4 <= dest
    modifies mem
    ensures CopiedUp(mem, was, dest, src, done + 4)
  {
    var edi, esi := dest + done, src + done;
    mem[edi], mem[edi + 1], mem[edi + 2], mem[edi + 3] := mem[esi], mem[esi + 1], mem[esi + 2], mem[esi + 3];
  }

  /**
   memcpy: bytes until the destination is aligned, then words, then the bytes that are left.
   Right for every alignment and length when the destination does not begin inside the
   source; a destination below an overlapping source is fine.
   */
  method Memcpy(mem: array<Byte>, dest: nat, src: nat, n: nat)
    requires dest + n <= mem.Length && src + n <= mem.Length
    requires dest <= src || src + n <= dest
    modifies mem
    ensures mem[..] == Moved(old(mem[..]), dest, src, n)
  {
    ghost var was := mem[..];
    var done, ecx := 0, n;
    while ecx != 0 && (dest + done) % 4 != 0
      invariant 0 <= ecx && done + ecx == n && CopiedUp(mem, was, dest, src, done)
    {
      CopyByte(mem, was, dest, src, done);
      done, ecx := done + 1, ecx - 1;
    }
    var words, edx := ecx / 4, ecx % 4;
    while words != 0
      invariant 0 <= words && done + 4 * words + edx == n && CopiedUp(mem, was, dest, src, done)
    {
      CopyWord(mem, was, dest, src, done);
      done, words := done + 4, words - 1;
    }
    while edx != 0
      invariant 0 <= edx && done + edx == n && CopiedUp(mem, was, dest, src, done)
    {
      CopyByte(mem, was, dest, src, done);
      done, edx := done + 1, edx - 1;
    }
    CopiedIsMoved(mem, was, dest, src, n);
  }

  /** memmove: upwards when the source is not below the destination, downwards otherwise. */
  method Memmove(mem: array<Byte>, dest: nat, src: nat, n: nat)
    requires dest + n <= mem.Length && src + n <= mem.Length
    modifies mem
    ensures mem[..] == Moved(old(mem[..]), dest, src, n)
  {
    ghost var was := mem[..];
    var ecx := n;
    if src >= dest {
      while ecx != 0
        invariant 0 <= ecx <= n && CopiedUp(mem, was, dest, src, n - ecx)
      {
        CopyByte(mem, was, dest, src, n - ecx);
        ecx := ecx - 1;
      }
    } else {
      while ecx != 0
        invariant 0 <= ecx <= n
        invariant forall k :: dest + ecx <= k < dest + n ==> mem[k] == was[src + (k - dest)]
        invariant forall k :: 0 <= k < mem.Length && !(dest + ecx <= k < dest + n) ==> mem[k] == was[k]
      {
        mem[dest + ecx - 1] := mem[src + ecx - 1];
        ecx := ecx - 1;
      }
    }
    CopiedIsMoved(mem, was, dest, src, n);
  }
}
