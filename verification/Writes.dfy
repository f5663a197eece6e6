/**
 What write_data of student-distrib/filesys.c does to the bytes of files, in every branch.
 */
module Writes {
  import opened Bytes
  import opened Volume

  /** Only the blocks written to change. */
  lemma {:induction false} PouredBlock(data: seq<Block>, b: nat, bytes: seq<Byte>)
    requires b < |data|
    ensures PourInto(data, b, bytes) == data[b := Shared(data[b], bytes)]
    decreases |bytes|
  {
    if |bytes| >= 4096 {
      PouredBlock(data[b := bytes[..4096]], b, bytes[4096..]);
    }
  }

  /** The bytes that whole blocks hold. */
  function Full(n: nat): (f: nat)
    ensures f <= n < f + 4096 && f % 4096 == 0
  {
    n / 4096 * 4096
  }

  /** The last byte that is written to a place, or what was there before. */
  function LastByte(block: Block, bytes: seq<Byte>, j: nat): Byte
    requires j < 4096
  {
    var full := Full(|bytes|);
    if full + j < |bytes| then bytes[full + j] else if full > 0 then bytes[full - 4096 + j] else block[j]
  }

  lemma LastByteStep(block: Block, bytes: seq<Byte>, j: nat)
    requires j < 4096
    ensures |bytes| >= 4096 ==> LastByte(block, bytes, j) == LastByte(bytes[..4096], bytes[4096..], j)
    ensures |bytes| < 4096 ==> LastByte(block, bytes, j) == Overlay(block, 0, bytes)[j]
  {
    FullStep(|bytes|);
  }

  lemma {:induction false} SharedAt(block: Block, bytes: seq<Byte>, j: nat)
    requires j < 4096
    ensures Shared(block, bytes)[j] == LastByte(block, bytes, j)
    decreases |bytes|
  {
    LastByteStep(block, bytes, j);
    if |bytes| >= 4096 {
      SharedAt(bytes[..4096], bytes[4096..], j);
    }
  }

  lemma FullStep(len: nat)
    ensures Full(len) == if len < 4096 then 0 else Full(len - 4096) + 4096
  {}

  /**
   What a write that finds its blocks leaves besides bytes. One that spans blocks puts the free
   block into every slot behind the first that its bytes reach into, the slot behind a last full
   block included, and into the first one only if that is empty.
   */
  lemma SlotsAfter(image: Image, n: nat, offset: nat, buf: seq<Byte>)
    requires !Refused(image, n, offset, buf) && Reaches(image, n, offset, buf)
    ensures var (r, was) := (WriteRaw(image, n, offset, buf), image.inodes[n]);
      && r.bitmap == image.bitmap && |r.inodes| == |image.inodes|
      && (forall m :: 0 <= m < |r.inodes| && m != n ==> r.inodes[m] == image.inodes[m])
      && r.inodes[n].size == (if offset + |buf| > was.size then offset + |buf| else was.size)
      && |r.inodes[n].slots| == 1023
      && forall k :: 0 <= k < 1023 ==>
           r.inodes[n].slots[k] == (if offset % 4096 + |buf| > 4096
              && (offset / 4096 < k <= (offset + |buf|) / 4096 || (k == offset / 4096 && was.slots[k] == 0))
            then FindFreeDatablock(image.bitmap, 1) else was.slots[k])
  {
    if offset % 4096 + |buf| > 4096 { LastSlot(offset, |buf|); }
  }

  lemma LastSlot(offset: nat, len: nat)
    requires offset % 4096 + len > 4096
    ensures offset / 4096 + 1 + (len - (4096 - offset % 4096)) / 4096 == (offset + len) / 4096
  {}

  /** A write that finds the blocks it needs leaves the bytes of every other file. */
  lemma OthersKeep(image: Image, names: set<nat>, n: nat, offset: nat, buf: seq<Byte>, m: nat)
    requires Owned(image, names) && n in names && m in names && m != n
    requires !Refused(image, n, offset, buf) && Reaches(image, n, offset, buf)
    ensures WriteRaw(image, n, offset, buf).Content(m) == image.Content(m)
  {
    var r := WriteRaw(image, n, offset, buf);
    assert Packed(image.inodes[m], |image.data|);
    forall i | 0 <= i < image.inodes[m].size
      ensures r.data[r.inodes[m].slots[i / 4096]][i % 4096] == image.Content(m)[i]
    {
      SlotInUse(image.inodes[m], |image.data|, i);
      OtherBlock(image, names, n, offset, buf, m, i / 4096);
    }
    ContentIs(r, m, image.Content(m));
  }

  lemma OtherBlock(image: Image, names: set<nat>, n: nat, offset: nat, buf: seq<Byte>, m: nat, k: nat)
    requires Owned(image, names) && n in names && m in names && m != n && k < 1023 && image.Slot(m, k) != 0
    requires !Refused(image, n, offset, buf) && Reaches(image, n, offset, buf)
    ensures image.Slot(m, k) < |image.data|
    ensures WriteRaw(image, n, offset, buf).data[image.Slot(m, k)] == image.data[image.Slot(m, k)]
  {
    assert Packed(image.inodes[m], |image.data|);
    var (b, slot, within) := (image.Slot(m, k), offset / 4096, offset % 4096);
    assert image.Slot(n, slot) != b;
    if within + |buf| > 4096 {
      assert Taken(image, names, b);
      var free := FindFreeDatablock(image.bitmap, 1);
      var first := if image.Slot(n, slot) == 0 then free else image.Slot(n, slot);
      PouredBlock(image.data[first := Overlay(image.data[first], within, buf[..4096 - within])], free, buf[4096 - within..]);
    }
  }

  /** A write within one block splices the file, even when it has no block there and block 0 is written to. */
  lemma OneBlockSplices(image: Image, names: set<nat>, n: nat, offset: nat, buf: seq<Byte>)
    requires Owned(image, names) && n in names && offset % 4096 + |buf| <= 4096
    requires !Refused(image, n, offset, buf) && Reaches(image, n, offset, buf)
    ensures WriteRaw(image, n, offset, buf).inodes[n].Sound(|image.data|)
    ensures WriteRaw(image, n, offset, buf).Content(n) == Splice(image.Content(n), offset, buf)
  {
    var (r, file) := (WriteRaw(image, n, offset, buf), image.inodes[n]);
    assert Packed(file, |image.data|);
    var want := Splice(image.Content(n), offset, buf);
    forall i | 0 <= i < r.inodes[n].size ensures r.data[r.inodes[n].slots[i / 4096]][i % 4096] == want[i] {
      SpliceAt(image.Content(n), offset, buf, i);
      if i < file.size { SlotInUse(file, |image.data|, i); }
      assert image.Slot(n, i / 4096) == image.Slot(n, offset / 4096) != 0 ==> i / 4096 == offset / 4096;
    }
    ContentIs(r, n, want);
  }

  // ---------------------------------------------------------------------------------
  // Across blocks
  // ---------------------------------------------------------------------------------

  predicate Spans(image: Image, n: nat, offset: nat, buf: seq<Byte>) {
    !Refused(image, n, offset, buf) && Reaches(image, n, offset, buf) && offset % 4096 + |buf| > 4096
  }

  /** How many bytes of buf go to a block that the file has. */
  function Own(image: Image, n: nat, offset: nat, buf: seq<Byte>): nat
    requires Spans(image, n, offset, buf)
  {
    if image.inodes[n].slots[offset / 4096] == 0 then 0 else 4096 - offset % 4096
  }

  /** The file has no block in the slot only when the write begins there, at the end of the file. */
  lemma OwnEnds(image: Image, n: nat, offset: nat, buf: seq<Byte>)
    requires Spans(image, n, offset, buf) && Packed(image.inodes[n], |image.data|)
    ensures (offset + Own(image, n, offset, buf)) % 4096 == 0
    ensures Own(image, n, offset, buf) == 0 ==> offset == image.inodes[n].size && offset % 4096 == 0
  {
    var (slot, file) := (offset / 4096, image.inodes[n]);
    assert slot < Inode.Span(file.size) ==> file.slots[slot] != 0;
  }

  /** Byte j of the one block that all later slots share. */
  function SharedByte(image: Image, n: nat, offset: nat, buf: seq<Byte>, j: nat): Byte
    requires Spans(image, n, offset, buf) && j < 4096
  {
    var end := offset + |buf|;
    if Full(end) + j < end then buf[Full(end) + j - offset]
    else if Full(end) - 4096 >= offset + Own(image, n, offset, buf) then buf[Full(end) - 4096 + j - offset]
    else image.data[FindFreeDatablock(image.bitmap, 1)][j]
  }

  /** The blocks that are written to, after the write. */
  lemma WrittenBlocks(image: Image, names: set<nat>, n: nat, offset: nat, buf: seq<Byte>)
    requires Owned(image, names) && n in names && Spans(image, n, offset, buf)
    ensures var (r, first, remain) := (WriteRaw(image, n, offset, buf), image.inodes[n].slots[offset / 4096], 4096 - offset % 4096);
      var free := FindFreeDatablock(image.bitmap, 1);
      && (first != 0 ==> first != free && r.data[first] == Overlay(image.data[first], offset % 4096, buf[..remain]))
      && r.data[free] == Shared(if first == 0 then Overlay(image.data[free], offset % 4096, buf[..remain]) else image.data[free],
                                buf[remain..])
  {
    var (first, remain) := (image.Slot(n, offset / 4096), 4096 - offset % 4096);
    var free := FindFreeDatablock(image.bitmap, 1);
    if first != 0 { assert Taken(image, names, first); }
    var used := if first == 0 then free else first;
    PouredBlock(image.data[used := Overlay(image.data[used], offset % 4096, buf[..remain])], free, buf[remain..]);
  }

  lemma SharedIs(image: Image, names: set<nat>, n: nat, offset: nat, buf: seq<Byte>, j: nat)
    requires Owned(image, names) && n in names && Spans(image, n, offset, buf) && j < 4096
    ensures WriteRaw(image, n, offset, buf).data[FindFreeDatablock(image.bitmap, 1)][j] == SharedByte(image, n, offset, buf, j)
  {
    var (first, remain) := (image.inodes[n].slots[offset / 4096], 4096 - offset % 4096);
    var free := FindFreeDatablock(image.bitmap, 1);
    WrittenBlocks(image, names, n, offset, buf);
    OwnEnds(image, n, offset, buf);
    var block := if first == 0 then Overlay(image.data[free], offset % 4096, buf[..remain]) else image.data[free];
    SharedAt(block, buf[remain..], j);
    FullFrom(offset, |buf|);
  }

  lemma FullFrom(offset: nat, len: nat)
    requires offset % 4096 + len > 4096
    ensures Full(offset + len) == offset + (4096 - offset % 4096) + Full(len - (4096 - offset % 4096))
  {}

  /** Every byte of the file after a write that spans blocks. */
  lemma AcrossAt(image: Image, names: set<nat>, n: nat, offset: nat, buf: seq<Byte>, i: nat)
    requires Owned(image, names) && n in names && Spans(image, n, offset, buf)
    requires i < WriteRaw(image, n, offset, buf).inodes[n].size
    ensures var (r, own) := (WriteRaw(image, n, offset, buf), Own(image, n, offset, buf));
      && i / 4096 < 1023 && r.inodes[n].slots[i / 4096] < |r.data|
      && r.data[r.inodes[n].slots[i / 4096]][i % 4096] ==
           if offset <= i < offset + own then buf[i - offset]
           else if offset + own <= i < Full(offset + |buf|) + 4096 then SharedByte(image, n, offset, buf, i % 4096)
           else image.Content(n)[i]
  {
    var (file, own, slot) := (image.inodes[n], Own(image, n, offset, buf), offset / 4096);
    assert Packed(file, |image.data|);
    OwnEnds(image, n, offset, buf);
    WrittenBlocks(image, names, n, offset, buf);
    SharedIs(image, names, n, offset, buf, i % 4096);
    FullFrom(offset, |buf|);
    if i < offset || Full(offset + |buf|) + 4096 <= i {
      SlotInUse(file, |image.data|, i);
      if i / 4096 != slot { Untouched(image, names, n, offset, buf, i / 4096); }
    }
  }

  lemma Untouched(image: Image, names: set<nat>, n: nat, offset: nat, buf: seq<Byte>, k: nat)
    requires Owned(image, names) && n in names && Spans(image, n, offset, buf)
    requires k < 1023 && image.Slot(n, k) != 0 && (k < offset / 4096 || (offset + |buf|) / 4096 < k)
    ensures var r := WriteRaw(image, n, offset, buf);
      r.inodes[n].slots[k] == image.Slot(n, k) < |image.data| && r.data[image.Slot(n, k)] == image.data[image.Slot(n, k)]
  {
    var (first, remain) := (image.Slot(n, offset / 4096), 4096 - offset % 4096);
    var free := FindFreeDatablock(image.bitmap, 1);
    assert Packed(image.inodes[n], |image.data|) && Taken(image, names, image.Slot(n, k));
    var used := if first == 0 then free else first;
    PouredBlock(image.data[used := Overlay(image.data[used], offset % 4096, buf[..remain])], free, buf[remain..]);
    FullFrom(offset, |buf|);
  }

  /** From start on every byte is the same as the one 4096 places on. */
  predicate Repeats(buf: seq<Byte>, start: nat) {
    forall i :: start <= i && i + 4096 < |buf| ==> buf[i] == buf[i + 4096]
  }

  lemma {:induction false} RepeatsOn(buf: seq<Byte>, start: nat, i: nat, k: nat)
    requires Repeats(buf, start) && start <= i <= k < |buf| && i % 4096 == k % 4096
    ensures buf[i] == buf[k]
    decreases k - i
  {
    if i < k { RepeatsOn(buf, start, i + 4096, k); }
  }

  /** Behind what was written, the rest of the last block was there before. */
  predicate RestThere(image: Image, n: nat, offset: nat, buf: seq<Byte>)
    requires Spans(image, n, offset, buf) && image.inodes[n].Sound(|image.data|)
  {
    forall i :: offset + |buf| <= i < image.inodes[n].size && i < Full(offset + |buf|) + 4096 ==>
      image.Content(n)[i] == SharedByte(image, n, offset, buf, i % 4096)
  }

  lemma SharedIsBuf(image: Image, n: nat, offset: nat, buf: seq<Byte>, i: nat)
    requires Spans(image, n, offset, buf) && Packed(image.inodes[n], |image.data|)
    requires Repeats(buf, Own(image, n, offset, buf))
    requires offset + Own(image, n, offset, buf) <= i < offset + |buf|
    ensures SharedByte(image, n, offset, buf, i % 4096) == buf[i - offset]
  {
    OwnEnds(image, n, offset, buf);
    LastOf(i, offset + Own(image, n, offset, buf), offset + |buf|);
    var k := LastLike(i, offset + |buf|);
    SameResidue(i, k, offset);
    RepeatsOn(buf, Own(image, n, offset, buf), i - offset, k - offset);
  }

  /** The last place below end that is a multiple of 4096 away from i. */
  function LastLike(i: nat, end: nat): int {
    if Full(end) + i % 4096 < end then Full(end) + i % 4096 else Full(end) - 4096 + i % 4096
  }

  lemma LastOf(i: nat, from: nat, end: nat)
    requires from <= i < end && from % 4096 == 0
    ensures i <= LastLike(i, end) < end && LastLike(i, end) % 4096 == i % 4096
    ensures Full(end) + i % 4096 >= end ==> Full(end) - 4096 >= from
  {
    assert i == Full(i) + i % 4096 && from == Full(from) <= Full(i) <= Full(end);
  }

  lemma SameResidue(i: nat, k: nat, offset: nat)
    requires offset <= i <= k && i % 4096 == k % 4096
    ensures (i - offset) % 4096 == (k - offset) % 4096
  {}

  /**
   A write that spans blocks splices the file exactly when what it puts into the shared block
   repeats every 4096 bytes, and the rest of the last block was there before.
   */
  lemma AcrossSplices(image: Image, names: set<nat>, n: nat, offset: nat, buf: seq<Byte>)
    requires Owned(image, names) && n in names && Spans(image, n, offset, buf)
    ensures WriteRaw(image, n, offset, buf).inodes[n].Sound(|image.data|)
    ensures WriteRaw(image, n, offset, buf).Content(n) == Splice(image.Content(n), offset, buf)
      <==> Repeats(buf, Own(image, n, offset, buf)) && RestThere(image, n, offset, buf)
  {
    var r := WriteRaw(image, n, offset, buf);
    AcrossSound(image, names, n, offset, buf);
    if Repeats(buf, Own(image, n, offset, buf)) && RestThere(image, n, offset, buf) {
      IfRepeats(image, names, n, offset, buf);
    }
    if r.Content(n) == Splice(image.Content(n), offset, buf) {
      OnlyIfRepeats(image, names, n, offset, buf);
    }
  }

  lemma AcrossSound(image: Image, names: set<nat>, n: nat, offset: nat, buf: seq<Byte>)
    requires Owned(image, names) && n in names && Spans(image, n, offset, buf)
    ensures WriteRaw(image, n, offset, buf).inodes[n].Sound(|image.data|)
  {
    assert Packed(image.inodes[n], |image.data|);
  }

  lemma IfRepeats(image: Image, names: set<nat>, n: nat, offset: nat, buf: seq<Byte>)
    requires Owned(image, names) && n in names && Spans(image, n, offset, buf)
    requires Repeats(buf, Own(image, n, offset, buf)) && RestThere(image, n, offset, buf)
    requires WriteRaw(image, n, offset, buf).inodes[n].Sound(|image.data|)
    ensures WriteRaw(image, n, offset, buf).Content(n) == Splice(image.Content(n), offset, buf)
  {
    var (r, own) := (WriteRaw(image, n, offset, buf), Own(image, n, offset, buf));
    var want := Splice(image.Content(n), offset, buf);
    forall i | 0 <= i < |want| ensures r.data[r.inodes[n].slots[i / 4096]][i % 4096] == want[i] {
      AcrossAt(image, names, n, offset, buf, i);
      SpliceAt(image.Content(n), offset, buf, i);
      if offset + own <= i < offset + |buf| { SharedIsBuf(image, n, offset, buf, i); }
    }
    ContentIs(r, n, want);
  }

  lemma OnlyIfRepeats(image: Image, names: set<nat>, n: nat, offset: nat, buf: seq<Byte>)
    requires Owned(image, names) && n in names && Spans(image, n, offset, buf)
    requires WriteRaw(image, n, offset, buf).inodes[n].Sound(|image.data|)
    requires WriteRaw(image, n, offset, buf).Content(n) == Splice(image.Content(n), offset, buf)
    ensures Repeats(buf, Own(image, n, offset, buf)) && RestThere(image, n, offset, buf)
  {
    forall i | Own(image, n, offset, buf) <= i && i + 4096 < |buf| ensures buf[i] == buf[i + 4096] {
      RepeatsAt(image, names, n, offset, buf, i);
    }
    forall i | offset + |buf| <= i < image.inodes[n].size && i < Full(offset + |buf|) + 4096
      ensures image.Content(n)[i] == SharedByte(image, n, offset, buf, i % 4096)
    {
      WrittenByte(image, names, n, offset, buf, i);
    }
  }

  lemma RepeatsAt(image: Image, names: set<nat>, n: nat, offset: nat, buf: seq<Byte>, i: nat)
    requires Owned(image, names) && n in names && Spans(image, n, offset, buf)
    requires WriteRaw(image, n, offset, buf).inodes[n].Sound(|image.data|)
    requires WriteRaw(image, n, offset, buf).Content(n) == Splice(image.Content(n), offset, buf)
    requires Own(image, n, offset, buf) <= i && i + 4096 < |buf|
    ensures buf[i] == buf[i + 4096]
  {
    WrittenByte(image, names, n, offset, buf, offset + i);
    WrittenByte(image, names, n, offset, buf, offset + i + 4096);
    assert (offset + i + 4096) % 4096 == (offset + i) % 4096;
  }

  lemma WrittenByte(image: Image, names: set<nat>, n: nat, offset: nat, buf: seq<Byte>, i: nat)
    requires Owned(image, names) && n in names && Spans(image, n, offset, buf)
    requires WriteRaw(image, n, offset, buf).inodes[n].Sound(|image.data|)
    requires WriteRaw(image, n, offset, buf).Content(n) == Splice(image.Content(n), offset, buf)
    requires offset + Own(image, n, offset, buf) <= i < Full(offset + |buf|) + 4096
    requires i < WriteRaw(image, n, offset, buf).inodes[n].size
    ensures SharedByte(image, n, offset, buf, i % 4096)
      == if i < offset + |buf| then buf[i - offset] else image.Content(n)[i]
  {
    AcrossAt(image, names, n, offset, buf, i);
    SpliceAt(image.Content(n), offset, buf, i);
    var r := WriteRaw(image, n, offset, buf);
    assert r.Content(n)[i] == r.data[r.inodes[n].slots[i / 4096]][i % 4096];
  }
}
