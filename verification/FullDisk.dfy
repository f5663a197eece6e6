/**
 What write_data of student-distrib/filesys.c does on a disk without a free block: the block
 it pours bytes into is the last inode.
 */
module FullDisk {
  import opened Bytes
  import opened Volume
  import opened Writes

  /** A write that spans blocks, with no block to spare. */
  predicate Overruns(image: Image, n: nat, offset: nat, buf: seq<Byte>) {
    !Refused(image, n, offset, buf) && SpansFull(image, n, offset, buf)
  }

  /** The last inode as a block, before and after. */
  function Before(image: Image): Block
    requires image.inodes != [] && |image.inodes[|image.inodes| - 1].slots| == 1023
  {
    Encoded(image.inodes[|image.inodes| - 1])
  }

  function After(image: Image, n: nat, offset: nat, buf: seq<Byte>): Block
    requires Overruns(image, n, offset, buf)
  {
    LastBlock(image.inodes, image.inodes[n].slots[offset / 4096], offset % 4096, buf)
  }

  lemma LastInode(image: Image, n: nat, offset: nat, buf: seq<Byte>)
    requires Overruns(image, n, offset, buf)
    ensures |WriteFull(image, n, offset, buf).inodes| == |image.inodes|
    ensures WriteFull(image, n, offset, buf).inodes[|image.inodes| - 1] == Decoded(After(image, n, offset, buf))
  {}

  /** What the write leaves besides the last inode: slots with the number 0xFFFFFFFF, and the first block. */
  lemma SlotsAfterFull(image: Image, n: nat, offset: nat, buf: seq<Byte>)
    requires Overruns(image, n, offset, buf)
    ensures var (r, was) := (WriteFull(image, n, offset, buf), image.inodes[n]);
      && r.bitmap == image.bitmap && |r.inodes| == |image.inodes|
      && (forall m :: 0 <= m < |r.inodes| - 1 && m != n ==> r.inodes[m] == image.inodes[m])
      && r.inodes[n].size == (if offset + |buf| > was.size then offset + |buf| else was.size)
      && |r.inodes[n].slots| == 1023
      && forall k :: 0 <= k < 1023 ==>
           r.inodes[n].slots[k] == (if offset / 4096 < k <= (offset + |buf|) / 4096 || (k == offset / 4096 && was.slots[k] == 0)
            then 0xFFFF_FFFF else was.slots[k])
  {
    LastSlot(offset, |buf|);
  }

  /** Byte j of the last inode afterwards: what was poured there last, or what was there before. */
  lemma LastInodeBytes(image: Image, n: nat, offset: nat, buf: seq<Byte>, j: nat)
    requires Overruns(image, n, offset, buf) && j < 4096
    ensures var (within, end) := (offset % 4096, offset % 4096 + |buf|);
      After(image, n, offset, buf)[j] ==
        if Full(end) + j < end then buf[Full(end) + j - within]
        else if Full(end) > 4096 then buf[Full(end) - 4096 + j - within]
        else if image.inodes[n].slots[offset / 4096] == 0 && j >= within then buf[j - within]
        else Before(image)[j]
  {
    var within := offset % 4096;
    var (b, rest) := (image.inodes[n].slots[offset / 4096], buf[4096 - within..]);
    var first := FirstPoured(image.inodes, b, within, buf);
    SharedAt(first, rest, j);
    FullStep(within + |buf|);
    assert Full(within + |buf|) == Full(|rest|) + 4096;
    assert b == 0 && j >= within ==> first[j] == buf[j - within];
  }

  /** The last inode stays exactly when what is poured over it leaves its bytes as they were. */
  lemma LastInodeExactly(image: Image, n: nat, offset: nat, buf: seq<Byte>)
    requires Overruns(image, n, offset, buf)
    ensures var last := |image.inodes| - 1;
      WriteFull(image, n, offset, buf).inodes[last] == image.inodes[last]
      <==> After(image, n, offset, buf) == Before(image)
  {
    LastInode(image, n, offset, buf);
    DecodedIs(After(image, n, offset, buf), image.inodes[|image.inodes| - 1]);
  }

  /** Every file but the one written and the one of the last inode keeps its bytes. */
  lemma OthersKeepFull(image: Image, names: set<nat>, n: nat, offset: nat, buf: seq<Byte>, m: nat)
    requires Owned(image, names) && n in names && m in names && m != n && m != |image.inodes| - 1
    requires Overruns(image, n, offset, buf)
    ensures WriteFull(image, n, offset, buf).inodes[m] == image.inodes[m]
    ensures WriteFull(image, n, offset, buf).Content(m) == image.Content(m)
  {
    SameBlocks(image, names, n, offset, buf, m);
    ContentIs(WriteFull(image, n, offset, buf), m, image.Content(m));
  }

  lemma SameBlocks(image: Image, names: set<nat>, n: nat, offset: nat, buf: seq<Byte>, m: nat)
    requires Owned(image, names) && n in names && m in names && m != n && Overruns(image, n, offset, buf)
    ensures var data := WriteFull(image, n, offset, buf).data;
      forall i :: 0 <= i < image.inodes[m].size ==>
        0 != image.inodes[m].slots[i / 4096] < |data| && data[image.inodes[m].slots[i / 4096]][i % 4096] == image.Content(m)[i]
  {
    assert Packed(image.inodes[m], |image.data|);
    forall i | 0 <= i < image.inodes[m].size ensures 0 != image.inodes[m].slots[i / 4096] < |image.data| {
      SlotInUse(image.inodes[m], |image.data|, i);
    }
    forall i | 0 <= i < image.inodes[m].size ensures image.inodes[m].slots[i / 4096] != image.inodes[n].slots[offset / 4096] {
      assert image.Slot(m, i / 4096) != 0;
      assert image.Slot(n, offset / 4096) == image.inodes[n].slots[offset / 4096];
    }
  }

  /** If the last inode stays, so do the bytes of its file. */
  lemma LastFileKeeps(image: Image, names: set<nat>, n: nat, offset: nat, buf: seq<Byte>)
    requires Owned(image, names) && n in names && |image.inodes| - 1 in names && Overruns(image, n, offset, buf)
    requires After(image, n, offset, buf) == Before(image)
    ensures WriteFull(image, n, offset, buf).inodes[|image.inodes| - 1] == image.inodes[|image.inodes| - 1]
    ensures WriteFull(image, n, offset, buf).Content(|image.inodes| - 1) == image.Content(|image.inodes| - 1)
  {
    var last := |image.inodes| - 1;
    LastInodeExactly(image, n, offset, buf);
    assert WriteFull(image, n, offset, buf).inodes[last] == image.inodes[last];
    SameBlocks(image, names, n, offset, buf, last);
    ContentIs(WriteFull(image, n, offset, buf), last, image.Content(last));
  }

  /** The other files keep their inodes exactly when none has the last inode, or its bytes stay. */
  lemma OtherInodesExactly(image: Image, names: set<nat>, n: nat, offset: nat, buf: seq<Byte>)
    requires Owned(image, names) && n in names && Overruns(image, n, offset, buf)
    ensures (forall m :: m in names && m != n ==> WriteFull(image, n, offset, buf).inodes[m] == image.inodes[m])
      <==> |image.inodes| - 1 !in names || After(image, n, offset, buf) == Before(image)
  {
    LastInodeExactly(image, n, offset, buf);
    forall m | m in names && m != n && m != |image.inodes| - 1
      ensures WriteFull(image, n, offset, buf).inodes[m] == image.inodes[m]
    {
      OthersKeepFull(image, names, n, offset, buf, m);
    }
  }

  /** The file written has a slot with a block number that is not on the disk. */
  lemma FullBreaks(image: Image, names: set<nat>, n: nat, offset: nat, buf: seq<Byte>)
    requires Owned(image, names) && n in names && Overruns(image, n, offset, buf)
    ensures !Owned(WriteFull(image, n, offset, buf), names)
  {
    assert WriteFull(image, n, offset, buf).inodes[n].slots[offset / 4096 + 1] == NO_BLOCK;
  }

  // ---------------------------------------------------------------------------------
  // A disk that loses a file
  // ---------------------------------------------------------------------------------

  /** Two files of a block each, in inodes 0 and 1, on a disk with no other block. */
  function TwoFiles(): Image {
    Image([Inode(4096, [1] + seq(1022, _ => 0)), Inode(4096, [2] + seq(1022, _ => 0))],
          [ZEROS, ZEROS, ZEROS], [false, true, true])
  }

  lemma TwoFilesSlots(n: nat, k: nat)
    requires n < 2 && k < 1023
    ensures TwoFiles().Slot(n, k) == if k == 0 then n + 1 else 0
  {}

  lemma TwoFilesUnshared()
    ensures Unshared(TwoFiles(), {0, 1})
  {
    forall m, j, n, k | m in {0, 1} && n in {0, 1} && 0 <= j < 1023 && 0 <= k < 1023
      && TwoFiles().Slot(m, j) == TwoFiles().Slot(n, k) != 0
      ensures m == n && j == k
    {
      TwoFilesSlots(m, j);
      TwoFilesSlots(n, k);
    }
  }

  lemma TwoFilesOwned()
    ensures Owned(TwoFiles(), {0, 1})
  {
    var image := TwoFiles();
    TwoFilesUnshared();
    TwoFilesSlots(0, 0);
    TwoFilesSlots(1, 0);
    assert Packed(image.inodes[0], 3);
    assert Packed(image.inodes[1], 3);
    forall b | 0 < b < 3 ensures image.bitmap[b] <==> Taken(image, {0, 1}, b) {
      assert b - 1 in {0, 1} && image.Slot(b - 1, 0) == b;
    }
  }

  lemma FirstWord(b: Block)
    ensures Decoded(b).size == b[0] + 0x100 * (b[1] as int) + 0x1_0000 * (b[2] as int) + 0x100_0000 * (b[3] as int)
  {}

  /**
   A write that reaches into the next block by four bytes or more, but by less than a block,
   makes these four, the lowest first, the size of the file on the last inode.
   */
  lemma LastSize(image: Image, n: nat, offset: nat, buf: seq<Byte>)
    requires Overruns(image, n, offset, buf)
    requires 4 <= |buf| - (4096 - offset % 4096) < 4096
    ensures var at := 4096 - offset % 4096;
      WriteFull(image, n, offset, buf).inodes[|image.inodes| - 1].size
        == buf[at] + 0x100 * (buf[at + 1] as int) + 0x1_0000 * (buf[at + 2] as int) + 0x100_0000 * (buf[at + 3] as int)
  {
    LastInode(image, n, offset, buf);
    FirstWord(After(image, n, offset, buf));
    FullStep(offset % 4096 + |buf|);
    LastInodeBytes(image, n, offset, buf, 0);
    LastInodeBytes(image, n, offset, buf, 1);
    LastInodeBytes(image, n, offset, buf, 2);
    LastInodeBytes(image, n, offset, buf, 3);
  }

  /** Writing 4100 zeros to the first file empties the second. */
  lemma FullDiskEmpties(buf: seq<Byte>)
    requires |buf| == 4100 && forall i :: 0 <= i < |buf| ==> buf[i] == 0
    ensures Owned(TwoFiles(), {0, 1}) && Overruns(TwoFiles(), 0, 0, buf) && TwoFiles().inodes[1].size == 4096
    ensures WriteFull(TwoFiles(), 0, 0, buf).inodes[1].size == 0
  {
    TwoFilesOwned();
    LastSize(TwoFiles(), 0, 0, buf);
  }
}
