/**
 kmalloc of student-distrib/malloc.c, as written: a first fit over a doubly linked list of
 free blocks whose headers lie in the arena itself.
 */
module Kmalloc {
  import opened Sequences

  const BEGIN := 0x300_0000
  const ARENA := 0x100_0000
  const HEADER := 16
  const LARGEST := 0x40_0000
  const WORD := 0x1_0000_0000
  const NULL := 0
  /** kmalloc_init maps each 4 MB of the arena to the same page frames, the first 4 MB of memory. */
  const FRAMES := 0x40_0000
  /** The displayed page of video memory and the backup pages are among them. */
  const VIDEO := 0xB_8000
  const VIDEO_END := 0xB_D000

  /** block_t; the field start is never used. */
  datatype Header = Header(prev: nat, next: nat, size: nat)

  function Aligned(size: nat): (r: nat)
    ensures size <= r < size + 16 && r % 16 == 0
  {
    (size + 15) / 16 * 16
  }

  predicate Acceptable(size: nat) { 0 < size <= LARGEST }

  // ---------------------------------------------------------------------------------
  // What the code does to the headers
  // ---------------------------------------------------------------------------------

  type Memory = map<nat, Header>

  predicate Neighbours(mem: Memory, b: nat) {
    && b in mem && (mem[b].prev != NULL ==> mem[b].prev in mem) && (mem[b].next != NULL ==> mem[b].next in mem)
  }

  function SetNext(mem: Memory, b: nat, next: nat): Memory
    requires b != NULL ==> b in mem
  {
    if b == NULL then mem else mem[b := mem[b].(next := next)]
  }

  function SetPrev(mem: Memory, b: nat, prev: nat): Memory
    requires b != NULL ==> b in mem
  {
    if b == NULL then mem else mem[b := mem[b].(prev := prev)]
  }

  /** Takes a block out of the list. */
  function Unlink(mem: Memory, b: nat): Memory
    requires Neighbours(mem, b)
  {
    var once := SetNext(mem, mem[b].prev, mem[b].next);
    SetPrev(once, once[b].next, once[b].prev)
  }

  /**
   Cuts size bytes off a block. The size of the rest is taken from the field that has just
   been overwritten, so it comes out 16 below zero, whatever the block had.
   */
  function Split(mem: Memory, b: nat, size: nat): Memory
    requires Neighbours(mem, b)
  {
    var rest := b + size + HEADER;
    var cut := mem[b := mem[b].(size := size)];
    var both := cut[rest := Header(cut[b].prev, cut[b].next, (size - (size + HEADER)) % WORD)];
    var once := SetNext(both, both[b].prev, rest);
    SetPrev(once, once[b].next, rest)
  }

  ghost predicate LinkedAt(mem: Memory, chain: seq<nat>, i: nat)
    requires i < |chain|
  {
    && chain[i] != NULL && chain[i] in mem
    && mem[chain[i]].prev == (if i == 0 then NULL else chain[i - 1])
    && mem[chain[i]].next == (if i + 1 < |chain| then chain[i + 1] else NULL)
  }

  /** The blocks of chain are doubly linked in their order. */
  ghost predicate Linked(mem: Memory, chain: seq<nat>) {
    && (forall i, j :: 0 <= i < j < |chain| ==> chain[i] != chain[j])
    && forall i :: 0 <= i < |chain| ==> LinkedAt(mem, chain, i)
  }

  /** kmem_blocks points to the first of them. */
  ghost predicate FreeList(mem: Memory, head: nat, chain: seq<nat>) {
    Linked(mem, chain) && head == if chain == [] then NULL else chain[0]
  }

  lemma LinkedNeighbours(mem: Memory, chain: seq<nat>, i: nat)
    requires Linked(mem, chain) && i < |chain|
    ensures Neighbours(mem, chain[i])
  {
    assert LinkedAt(mem, chain, i);
    assert i > 0 ==> LinkedAt(mem, chain, i - 1);
    assert i + 1 < |chain| ==> LinkedAt(mem, chain, i + 1);
  }

  /** A block taken out leaves the others linked in their order. */
  lemma UnlinkList(mem: Memory, chain: seq<nat>, i: nat)
    requires Linked(mem, chain) && i < |chain|
    ensures Neighbours(mem, chain[i]) && Linked(Unlink(mem, chain[i]), Without(chain, i))
  {
    LinkedNeighbours(mem, chain, i);
    var (r, rest) := (Unlink(mem, chain[i]), Without(chain, i));
    assert LinkedAt(mem, chain, i);
    forall k | 0 <= k < |rest| ensures LinkedAt(r, rest, k) {
      var j := if k < i then k else k + 1;
      assert rest[k] == chain[j] && LinkedAt(mem, chain, j);
      assert k > 0 ==> rest[k - 1] == chain[if k - 1 < i then k - 1 else k];
      assert k + 1 < |rest| ==> rest[k + 1] == chain[if k + 1 < i then k + 1 else k + 2];
    }
  }

  /** The rest of a block that is cut takes its place. */
  lemma SplitList(mem: Memory, chain: seq<nat>, i: nat, size: nat)
    requires Linked(mem, chain) && i < |chain| && chain[i] + size + HEADER !in chain
    ensures Neighbours(mem, chain[i]) && Linked(Split(mem, chain[i], size), chain[i := chain[i] + size + HEADER])
  {
    LinkedNeighbours(mem, chain, i);
    var (r, cut) := (Split(mem, chain[i], size), chain[i := chain[i] + size + HEADER]);
    assert LinkedAt(mem, chain, i);
    forall k | 0 <= k < |cut| ensures LinkedAt(r, cut, k) {
      assert LinkedAt(mem, chain, k);
    }
  }

  // ---------------------------------------------------------------------------------
  // What comes of it
  // ---------------------------------------------------------------------------------

  /** The bytes given out after some requests, headers included. */
  function Total(requests: seq<nat>): (t: nat)
    ensures t % 16 == 0
  {
    if requests == [] then 0
    else
      var last := |requests| - 1;
      Total(requests[..last]) + if Acceptable(requests[last]) then Aligned(requests[last]) + HEADER else 0
  }

  /** The address that the k-th request is answered with. */
  function Payload(requests: seq<nat>, k: nat): nat
    requires k < |requests|
  {
    if Acceptable(requests[k]) then BEGIN + Total(requests[..k]) + HEADER else NULL
  }

  /** Exactly the requests for nothing and for more than 4 MB are refused. */
  lemma RefusedExactly(requests: seq<nat>, k: nat)
    requires k < |requests|
    ensures Payload(requests, k) == NULL <==> requests[k] == 0 || requests[k] > 0x40_0000
  {}

  /** The first that is not gets the bytes behind the first header. */
  lemma {:induction false} FirstPayload(requests: seq<nat>, k: nat)
    requires k < |requests| && 0 < requests[k] <= 0x40_0000
    requires forall i :: 0 <= i < k ==> requests[i] == 0 || requests[i] > 0x40_0000
    ensures Payload(requests, k) == 0x300_0010
  {
    NothingGiven(requests, k);
  }

  lemma {:induction false} NothingGiven(requests: seq<nat>, k: nat)
    requires k <= |requests| && forall i :: 0 <= i < k ==> requests[i] == 0 || requests[i] > 0x40_0000
    ensures Total(requests[..k]) == 0
  {
    if k > 0 {
      NothingGiven(requests, k - 1);
      assert requests[..k][..k - 1] == requests[..k - 1];
    }
  }

  lemma {:induction false} TotalMonotone(requests: seq<nat>, i: nat, j: nat)
    requires i <= j <= |requests|
    ensures Total(requests[..i]) <= Total(requests[..j])
    decreases j - i
  {
    if i < j {
      TotalMonotone(requests, i, j - 1);
      assert requests[..j][..j - 1] == requests[..j - 1];
    }
  }

  lemma TotalStep(requests: seq<nat>, k: nat)
    requires k < |requests|
    ensures Total(requests[..k + 1])
      == Total(requests[..k]) + if Acceptable(requests[k]) then Aligned(requests[k]) + HEADER else 0
  {
    assert requests[..k + 1][..k] == requests[..k];
  }

  /** Payloads are aligned, large enough, and each ends before the next header begins. */
  lemma PayloadsDisjoint(requests: seq<nat>, i: nat, j: nat)
    requires i < j < |requests| && Acceptable(requests[i]) && Acceptable(requests[j])
    ensures Payload(requests, i) % 16 == 0
    ensures Payload(requests, i) + requests[i] <= Payload(requests, i) + Aligned(requests[i])
    ensures Payload(requests, i) + Aligned(requests[i]) <= Payload(requests, j) - HEADER
  {
    TotalStep(requests, i);
    TotalMonotone(requests, i + 1, j);
  }

  /** Address a is in the header or the payload of the k-th request. */
  predicate Covers(requests: seq<nat>, k: nat, a: nat)
    requires k < |requests|
  {
    Acceptable(requests[k]) && Payload(requests, k) - HEADER <= a < Payload(requests, k) + Aligned(requests[k])
  }

  /** Headers and payloads tile what was given out: no byte is lost and none is given twice. */
  lemma {:induction false} Tiling(requests: seq<nat>, a: nat)
    ensures BEGIN <= a < BEGIN + Total(requests) <==> exists k :: 0 <= k < |requests| && Covers(requests, k, a)
    ensures forall i, j :: 0 <= i < j < |requests| && Covers(requests, i, a) ==> !Covers(requests, j, a)
    decreases |requests|
  {
    if requests != [] {
      var last := |requests| - 1;
      var before := requests[..last];
      Tiling(before, a);
      assert forall k :: 0 <= k < last ==> before[..k] == requests[..k];
      assert forall k :: 0 <= k < last ==> Covers(requests, k, a) == Covers(before, k, a);
      if BEGIN <= a < BEGIN + Total(before) {
        var k :| 0 <= k < |before| && Covers(before, k, a);
        assert Covers(requests, k, a);
      } else if BEGIN <= a < BEGIN + Total(requests) {
        assert Covers(requests, last, a);
      }
    }
    forall i, j | 0 <= i < j < |requests| && Covers(requests, i, a) ensures !Covers(requests, j, a) {
      if Acceptable(requests[j]) { PayloadsDisjoint(requests, i, j); }
    }
  }

  lemma EndsBelow(requests: seq<nat>, k: nat)
    requires k < |requests| && Acceptable(requests[k])
    ensures Payload(requests, k) + Aligned(requests[k]) <= BEGIN + Total(requests)
  {
    TotalStep(requests, k);
    TotalMonotone(requests, k + 1, |requests|);
    assert requests[..|requests|] == requests;
  }

  /** The header, the payload and the free header behind it lie in the arena. */
  predicate Inside(requests: seq<nat>, k: nat)
    requires k < |requests|
  {
    Acceptable(requests[k]) ==> Payload(requests, k) + Aligned(requests[k]) + HEADER <= BEGIN + ARENA
  }

  predicate Fits(requests: seq<nat>) { Total(requests) == 0 || Total(requests) + HEADER <= ARENA }

  /** All that kmalloc writes is inside the arena exactly when requests and headers fit, with one header to spare. */
  lemma InsideExactly(requests: seq<nat>)
    ensures (forall k :: 0 <= k < |requests| ==> Inside(requests, k)) <==> Fits(requests)
  {
    if Fits(requests) {
      forall k | 0 <= k < |requests| ensures Inside(requests, k) {
        if Acceptable(requests[k]) { EndsBelow(requests, k); }
      }
    } else {
      var a := BEGIN + Total(requests) - 1;
      Tiling(requests, a);
      var k :| 0 <= k < |requests| && Covers(requests, k, a);
      assert !Inside(requests, k);
    }
  }

  /** The one free block, its header included. */
  predicate InFreeBlock(requests: seq<nat>, a: nat) { BEGIN + Total(requests) <= a < BEGIN + ARENA }

  /** Headers, payloads and the free block tile the whole arena. */
  lemma ArenaTiled(requests: seq<nat>, a: nat)
    requires Fits(requests)
    ensures BEGIN <= a < BEGIN + ARENA
      <==> InFreeBlock(requests, a) || exists k :: 0 <= k < |requests| && Covers(requests, k, a)
    ensures forall k :: 0 <= k < |requests| && Covers(requests, k, a) ==> !InFreeBlock(requests, a)
    ensures forall i, j :: 0 <= i < j < |requests| && Covers(requests, i, a) ==> !Covers(requests, j, a)
  {
    Tiling(requests, a);
  }

  /** Four requests fill the arena to the last byte, and the header behind them does not fit. */
  lemma ArenaFilled()
    ensures var requests := [0x3F_FFF0, 0x3F_FFF0, 0x3F_FFF0, 0x3F_FFF0];
      Total(requests) == ARENA && Payload(requests, 3) + requests[3] == BEGIN + ARENA && !Inside(requests, 3)
  {
    var requests := [0x3F_FFF0, 0x3F_FFF0, 0x3F_FFF0, 0x3F_FFF0];
    assert requests[..4] == requests && requests[..0] == [];
    TotalStep(requests, 0);
    TotalStep(requests, 1);
    TotalStep(requests, 2);
    TotalStep(requests, 3);
  }

  // ---------------------------------------------------------------------------------
  // The memory behind the arena
  // ---------------------------------------------------------------------------------

  /** The byte of memory at an address of the arena. */
  function Physical(a: nat): (p: nat)
    requires a >= BEGIN
    ensures p < FRAMES
  {
    (a - BEGIN) % FRAMES
  }

  /** Headers, payloads and the free header behind them. */
  predicate Used(requests: seq<nat>, a: nat) {
    Total(requests) > 0 && BEGIN <= a < BEGIN + Total(requests) + HEADER
  }

  /** No two of these addresses are the same byte of memory exactly when they are within the first 4 MB. */
  lemma InMemoryExactly(requests: seq<nat>)
    ensures (forall a: nat, b: nat :: Used(requests, a) && Used(requests, b) && Physical(a) == Physical(b) ==> a == b)
      <==> Total(requests) == 0 || Total(requests) + HEADER <= 0x40_0000
  {
    if Total(requests) > 0 && Total(requests) + HEADER > FRAMES {
      assert Used(requests, BEGIN) && Used(requests, BEGIN + FRAMES);
      assert Physical(BEGIN) == Physical(BEGIN + FRAMES);
    }
  }

  /** They stay off the video pages exactly when they end below them. */
  lemma OffTheScreenExactly(requests: seq<nat>)
    ensures (forall a: nat :: Used(requests, a) ==> !(0xB_8000 <= Physical(a) < 0xB_D000))
      <==> Total(requests) == 0 || Total(requests) + HEADER <= 0xB_8000
  {
    if Total(requests) > 0 && Total(requests) + HEADER > VIDEO {
      assert Used(requests, BEGIN + VIDEO) && Physical(BEGIN + VIDEO) == VIDEO;
    }
  }

  /** Address a is in the payload of the k-th request. */
  predicate InPayload(requests: seq<nat>, k: nat, a: nat)
    requires k < |requests|
  {
    Acceptable(requests[k]) && Payload(requests, k) <= a < Payload(requests, k) + Aligned(requests[k])
  }

  predicate Meet(requests: seq<nat>, i: nat, j: nat, a: nat, b: nat)
    requires i < |requests| && j < |requests|
  {
    a >= BEGIN && b >= BEGIN && InPayload(requests, i, a) && InPayload(requests, j, b) && Physical(a) == Physical(b)
  }

  /** The least and the greatest distance between bytes of two payloads. */
  function Nearest(requests: seq<nat>, i: nat, j: nat): int
    requires i < j < |requests|
  {
    Payload(requests, j) - (Payload(requests, i) + Aligned(requests[i]) - 1)
  }

  function Farthest(requests: seq<nat>, i: nat, j: nat): int
    requires i < j < |requests|
  {
    Payload(requests, j) + Aligned(requests[j]) - 1 - Payload(requests, i)
  }

  /** Two payloads share memory exactly when a multiple of 4 MB is among the distances of their bytes. */
  lemma PayloadsMeetExactly(requests: seq<nat>, i: nat, j: nat)
    requires i < j < |requests| && Acceptable(requests[i]) && Acceptable(requests[j])
    ensures 0 < Nearest(requests, i, j) <= Farthest(requests, i, j)
    ensures (exists a: nat, b: nat :: Meet(requests, i, j, a, b))
      <==> Farthest(requests, i, j) / FRAMES > (Nearest(requests, i, j) - 1) / FRAMES
  {
    PayloadsDisjoint(requests, i, j);
    var (nearest, farthest) := (Nearest(requests, i, j), Farthest(requests, i, j));
    if a: nat, b: nat :| Meet(requests, i, j, a, b) {
      SameByte(a, b);
      MultipleBetween(nearest, b - a, farthest);
    }
    if farthest / FRAMES > (nearest - 1) / FRAMES {
      var d := farthest / FRAMES * FRAMES;
      LastMultiple(nearest, farthest);
      var (p, q) := (Payload(requests, i), Payload(requests, j));
      var a := if q - d > p then q - d else p;
      SameByte(a, a + d);
      assert Meet(requests, i, j, a, a + d);
    }
  }

  lemma SameByte(a: nat, b: nat)
    requires BEGIN <= a <= b
    ensures Physical(a) == Physical(b) <==> (b - a) % FRAMES == 0
  {}

  lemma LastMultiple(low: nat, high: nat)
    requires 0 < low <= high && high / FRAMES > (low - 1) / FRAMES
    ensures low <= high / FRAMES * FRAMES <= high && high / FRAMES * FRAMES % FRAMES == 0
  {}

  lemma MultipleBetween(low: nat, d: nat, high: nat)
    requires 0 < low <= d <= high && d % FRAMES == 0
    ensures high / FRAMES > (low - 1) / FRAMES
  {}

  // ---------------------------------------------------------------------------------
  // The code
  // ---------------------------------------------------------------------------------

  /** kmalloc answers an address or NULL, or touches memory that is not mapped. */
  datatype Answer = Address(p: nat) | Fault

  predicate Mapped(header: nat) { BEGIN <= header && header + HEADER <= BEGIN + ARENA }

  class Heap {
    var mem: Memory
    /** kmem_blocks, NULL until the first request. */
    var head: nat
    /** The requests made so far. */
    ghost var requests: seq<nat>

    /** There is never more than one free block, and it never looks too small. */
    ghost predicate Valid()
      reads this
    {
      if head == NULL then Total(requests) == 0
      else
        && Total(requests) > 0 && Fits(requests) && head == BEGIN + Total(requests)
        && FreeList(mem, head, [head]) && LinkedAt(mem, [head], 0) && mem[head].size >= LARGEST + HEADER
    }

    constructor ()
      ensures Valid() && requests == []
    {
      mem, head, requests := map[], NULL, [];
    }

    /** The loop of kmalloc: the first free block that is large enough, or NULL. */
    method FindFit(size: nat, ghost chain: seq<nat>) returns (curr: nat, ghost i: nat)
      requires FreeList(mem, head, chain)
      ensures i <= |chain| && curr == if i == |chain| then NULL else chain[i]
      ensures forall k :: 0 <= k < i ==> LinkedAt(mem, chain, k) && mem[chain[k]].size < size
      ensures i < |chain| ==> LinkedAt(mem, chain, i) && mem[curr].size >= size
      ensures curr != NULL ==> curr in chain && curr in mem && mem[curr].size >= size
      ensures curr == NULL ==> forall b :: b in chain && b in mem ==> mem[b].size < size
    {
      curr, i := head, 0;
      while curr != NULL
        invariant i <= |chain| && curr == if i == |chain| then NULL else chain[i]
        invariant forall k :: 0 <= k < i ==> LinkedAt(mem, chain, k) && mem[chain[k]].size < size
        decreases |chain| - i
      {
        assert LinkedAt(mem, chain, i);
        assert i + 1 < |chain| ==> LinkedAt(mem, chain, i + 1);
        if mem[curr].size >= size { return; }
        curr, i := mem[curr].next, i + 1;
      }
    }

    /**
     Gives a block out, whole or cut. A whole block leaves the list, but kmem_blocks still
     points to it if it was the first; the rest of a block that is cut takes its place.
     */
    method Take(curr: nat, size: nat, ghost chain: seq<nat>, ghost i: nat) returns (r: Answer)
      requires FreeList(mem, head, chain) && i < |chain| && curr == chain[i] && curr in mem && mem[curr].size >= size
      requires curr + size + HEADER !in chain
      modifies this`mem, this`head
      ensures
        if old(mem)[curr].size - size < HEADER then
          && r == Address(curr + HEADER)
          && Linked(mem, Without(chain, i)) && (FreeList(mem, head, Without(chain, i)) <==> i != 0)
        else if Mapped(curr + size + HEADER) then
          && r == Address(curr + HEADER)
          && FreeList(mem, head, chain[i := curr + size + HEADER])
          && curr + size + HEADER in mem && mem[curr + size + HEADER].size == WORD - HEADER
        else
          r == Fault && head == old(head) && mem == old(mem)[curr := old(mem)[curr].(size := size)]
    {
      if mem[curr].size - size < HEADER {
        UnlinkList(mem, chain, i);
        ghost var want := Unlink(mem, curr);
        if mem[curr].prev != NULL {
          mem := mem[mem[curr].prev := mem[mem[curr].prev].(next := mem[curr].next)];
        }
        if mem[curr].next != NULL {
          mem := mem[mem[curr].next := mem[mem[curr].next].(prev := mem[curr].prev)];
        }
        assert mem == want;
        assert LinkedAt(old(mem), chain, 0);
        assert Without(chain, i) != [] ==> Without(chain, i)[0] == chain[if i == 0 then 1 else 0];
        return Address(curr + HEADER);
      }
      SplitList(mem, chain, i, size);
      ghost var want := Split(mem, curr, size);
      mem := mem[curr := mem[curr].(size := size)];
      var next := curr + size + HEADER;
      if !Mapped(next) { return Fault; }
      mem := mem[next := Header(mem[curr].prev, mem[curr].next, (mem[curr].size - (size + HEADER)) % WORD)];
      if mem[curr].prev != NULL {
        mem := mem[mem[curr].prev := mem[mem[curr].prev].(next := next)];
      }
      if mem[curr].next != NULL {
        mem := mem[mem[curr].next := mem[mem[curr].next].(prev := next)];
      }
      assert mem == want;
      if curr == head { head := next; }
      return Address(curr + HEADER);
    }

    /** The end of kmalloc, which starts the arena anew. */
    method Restart(size: nat) returns (r: Answer)
      requires size + 2 * HEADER <= ARENA
      modifies this`mem, this`head
      ensures r == Address(BEGIN + HEADER) && head == BEGIN + size + HEADER
      ensures mem == old(mem)[BEGIN := Header(NULL, NULL, size)][head := Header(NULL, NULL, ARENA - (size + HEADER))]
    {
      head := BEGIN;
      mem := mem[head := Header(NULL, NULL, size)];
      head := head + size + HEADER;
      mem := mem[head := Header(NULL, NULL, ARENA - (size + HEADER))];
      return Address(BEGIN + HEADER);
    }

    /**
     A request is refused for its size alone, and otherwise answered with the next bytes of
     the arena as long as they and a header behind them fit. The arena is never found
     exhausted: the first request that does not fit faults, with the free block's size changed.
     */
    method Kmalloc(request: nat) returns (r: Answer)
      requires Valid()
      modifies this
      ensures r == Fault <==> !Fits(old(requests) + [request])
      ensures r == Address(0) <==> request == 0 || request > 0x40_0000
      ensures r != Fault ==>
        Valid() && requests == old(requests) + [request] && r == Address(Payload(requests, |old(requests)|))
      ensures r == Fault ==>
        && requests == old(requests) && head == old(head) != NULL && head in old(mem)
        && mem == old(mem)[head := old(mem)[head].(size := Aligned(request))]
    {
      ghost var after := requests + [request];
      assert after[..|requests|] == requests;
      if request == 0 || request > LARGEST {
        requests := after;
        return Address(NULL);
      }
      var size := (request + 15) / 16 * 16;
      ghost var chain := if head == NULL then [] else [head];
      var curr;
      ghost var i;
      curr, i := FindFit(size, chain);
      if curr != NULL {
        r := Take(curr, size, chain, i);
        assert chain[i := curr + size + HEADER] == [curr + size + HEADER];
      } else {
        r := Restart(size);
      }
      if r != Fault {
        requests := after;
        assert LinkedAt(mem, [head], 0);
      }
    }
  }
}
