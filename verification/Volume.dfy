/**
 The block layer of student-distrib/filesys.c: files as inodes over 4096-byte blocks, read
 and written across block boundaries.
 */
module Volume {
  import opened Bytes
  import Directory

  const NO_BLOCK: nat := 0xFFFF_FFFF

  type Block = b: seq<Byte> | |b| == 4096 witness seq(4096, _ => 0)

  const ZEROS: Block := seq(4096, _ => 0)

  /** A block number of 0 means that the slot is empty. */
  datatype Inode = Inode(size: nat, slots: seq<nat>) {
    /** How many slots the first n bytes lie in. */
    static function Span(n: nat): nat { (n + 4095) / 4096 }

    predicate Sound(blocks: nat) {
      && |slots| == 1023 && size <= 1023 * 4096
      && forall k :: 0 <= k < Span(size) ==> slots[k] < blocks
    }
  }

  datatype Image = Image(inodes: seq<Inode>, data: seq<Block>, bitmap: seq<bool>) {
    predicate Sound() { forall n :: 0 <= n < |inodes| ==> inodes[n].Sound(|data|) }

    /** The block in slot k of file n. */
    function Slot(n: nat, k: nat): nat
      requires n < |inodes| && k < |inodes[n].slots|
    {
      inodes[n].slots[k]
    }

    /** The bytes of a file, wherever its blocks are. */
    function Content(n: nat): (c: seq<Byte>)
      requires n < |inodes| && inodes[n].Sound(|data|)
      ensures |c| == inodes[n].size
    {
      var file := inodes[n];
      seq(file.size, i requires 0 <= i < file.size => data[file.slots[i / 4096]][i % 4096])
    }
  }

  function Min(a: nat, b: nat): nat { if a < b then a else b }

  /** What a read of len bytes at offset gives. */
  function Slice(content: seq<Byte>, offset: nat, len: nat): seq<Byte> {
    if offset >= |content| then [] else content[offset..Min(offset + len, |content|)]
  }

  /** What a successful write of buf at offset leaves. */
  function Splice(content: seq<Byte>, offset: nat, buf: seq<Byte>): seq<Byte>
    requires offset <= |content|
  {
    content[..offset] + buf + content[Min(offset + |buf|, |content|)..]
  }

  // ---------------------------------------------------------------------------------
  // Ownership of blocks
  // ---------------------------------------------------------------------------------

  /** Some named file has block b in one of its slots. */
  ghost predicate Taken(image: Image, names: set<nat>, b: nat)
    requires image.Sound() && forall n :: n in names ==> n < |image.inodes|
  {
    exists n, k :: n in names && 0 <= k < 1023 && image.Slot(n, k) == b
  }

  /** The slots in use come first, cover the size, and hold blocks of the disk. */
  ghost predicate Packed(file: Inode, blocks: nat) {
    && |file.slots| == 1023 && file.size <= 1023 * 4096
    && (forall k :: 0 <= k < 1023 ==> file.slots[k] < blocks)
    && (forall j, k :: 0 <= j < k < 1023 && file.slots[k] != 0 ==> file.slots[j] != 0)
    && (forall k :: 0 <= k < Inode.Span(file.size) ==> file.slots[k] != 0)
  }

  /** No block is in two slots, whether of one file or of two. */
  ghost predicate Unshared(image: Image, names: set<nat>)
    requires forall n :: n in names ==> n < |image.inodes| && |image.inodes[n].slots| == 1023
  {
    forall m, j, n, k | m in names && n in names && 0 <= j < 1023 && 0 <= k < 1023
      && image.Slot(m, j) == image.Slot(n, k) != 0 :: m == n && j == k
  }

  /** Every block in use belongs to one slot of one named file, and its bit says so. */
  ghost predicate Owned(image: Image, names: set<nat>) {
    && image.Sound() && |image.bitmap| == |image.data| > 0
    && (forall n :: n in names ==> n < |image.inodes| && Packed(image.inodes[n], |image.data|))
    && Unshared(image, names)
    && (forall b :: 0 < b < |image.data| ==> (image.bitmap[b] <==> Taken(image, names, b)))
  }

  // ---------------------------------------------------------------------------------
  // Mounting
  // ---------------------------------------------------------------------------------

  /** The inodes of the dentries whose name is not empty. */
  function Named(dentries: seq<Directory.Dentry>): (names: set<nat>) {
    set i | 0 <= i < |dentries| && Directory.IsNamed(dentries[i]) :: dentries[i].inode
  }

  /** How many slots of a file file_system_init looks at. */
  const MOUNTED: nat := 64

  /** Block b is in one of the first slots of a named file. */
  ghost predicate Marks(image: Image, names: set<nat>, limit: nat, b: nat)
    requires image.Sound() && limit <= 1023 && forall n :: n in names ==> n < |image.inodes|
  {
    exists n, k :: n in names && 0 <= k < limit && image.Slot(n, k) == b
  }

  /**
   Marking what the named files hold establishes the ownership of blocks exactly when no
   file goes beyond the 64 slots that file_system_init looks at.
   */
  lemma MountOwns(image: Image, names: set<nat>)
    requires image.Sound() && |image.bitmap| == |image.data| > 0
    requires forall n :: n in names ==> n < |image.inodes| && Packed(image.inodes[n], |image.data|)
    requires Unshared(image, names)
    requires forall b :: 0 < b < |image.data| ==> (image.bitmap[b] <==> Marks(image, names, MOUNTED, b))
    ensures Owned(image, names) <==> forall n :: n in names ==> image.inodes[n].slots[64] == 0
  {
    if forall n :: n in names ==> image.inodes[n].slots[64] == 0 {
      forall b | 0 < b < |image.data| ensures image.bitmap[b] <==> Taken(image, names, b) {
        if Taken(image, names, b) {
          var n, k :| n in names && 0 <= k < 1023 && image.Slot(n, k) == b;
          assert image.inodes[n].slots[64] == 0 ==> k < 64;
        }
      }
    } else {
      var n :| n in names && image.Slot(n, 64) != 0;
      var b := image.Slot(n, 64);
      assert Taken(image, names, b);
      assert !Marks(image, names, MOUNTED, b);
    }
  }

  /** A file of 65 blocks, whose last block mounting leaves unmarked. */
  lemma LongFileUnmarked()
    ensures var slots := seq(1023, k => if 0 <= k < 65 then k + 1 else 0);
      var image := Image([Inode(65 * 4096, slots)], seq(66, _ => ZEROS), seq(66, b => 1 <= b <= 64));
      && Packed(image.inodes[0], 66) && Unshared(image, {0})
      && (forall b :: 0 < b < 66 ==> (image.bitmap[b] <==> Marks(image, {0}, MOUNTED, b)))
      && !Owned(image, {0})
  {
    var slots: seq<nat> := seq(1023, k => if 0 <= k < 65 then k + 1 else 0);
    var image := Image([Inode(65 * 4096, slots)], seq(66, _ => ZEROS), seq(66, b => 1 <= b <= 64));
    assert Packed(image.inodes[0], 66);
    forall b | 0 < b < 66 ensures image.bitmap[b] <==> Marks(image, {0}, MOUNTED, b) {
      assert image.Slot(0, b - 1) == b;
    }
    MountOwns(image, {0});
    assert image.inodes[0].slots[64] == 65;
  }

  // ---------------------------------------------------------------------------------
  // Conservation
  // ---------------------------------------------------------------------------------

  /** The slots of the named files that hold a block. */
  ghost function UsedSlots(image: Image, names: set<nat>): set<(nat, nat)>
    requires forall n :: n in names ==> n < |image.inodes| && |image.inodes[n].slots| == 1023
  {
    set n, k | n in names && 0 <= k < 1023 && image.Slot(n, k) != 0 :: (n, k)
  }

  ghost function BlocksBelow(n: nat): (bs: set<nat>)
    ensures forall b :: b in bs <==> 0 < b < n
    ensures n > 0 ==> |bs| == n - 1
  {
    if n <= 1 then {} else BlocksBelow(n - 1) + {n - 1}
  }

  ghost function MarkedBlocks(image: Image): set<nat>
    requires |image.bitmap| == |image.data|
  {
    set b | 0 < b < |image.data| && image.bitmap[b]
  }

  ghost function FreeBlocks(image: Image): set<nat>
    requires |image.bitmap| == |image.data|
  {
    set b | 0 < b < |image.data| && !image.bitmap[b]
  }

  /** Used and free blocks are all there are. */
  lemma Conserved(image: Image, names: set<nat>)
    requires Owned(image, names)
    ensures |UsedSlots(image, names)| + |FreeBlocks(image)| == |image.data| - 1
  {
    var used, marked := UsedSlots(image, names), MarkedBlocks(image);
    forall b ensures b in marked <==> exists p :: p in used && image.Slot(p.0, p.1) == b {
      MarkedIsUsed(image, names, b);
    }
    OneToOne(image, used, marked);
    assert marked + FreeBlocks(image) == BlocksBelow(|image.data|) && marked !! FreeBlocks(image);
  }

  lemma MarkedIsUsed(image: Image, names: set<nat>, b: nat)
    requires Owned(image, names)
    ensures b in MarkedBlocks(image) <==> exists p :: p in UsedSlots(image, names) && image.Slot(p.0, p.1) == b
  {
    var used := UsedSlots(image, names);
    if b in MarkedBlocks(image) {
      assert Taken(image, names, b);
      var n, k :| n in names && 0 <= k < 1023 && image.Slot(n, k) == b;
      assert (n, k) in used && image.Slot((n, k).0, (n, k).1) == b;
    }
    if p :| p in used && image.Slot(p.0, p.1) == b {
      assert Packed(image.inodes[p.0], |image.data|);
      assert Taken(image, names, b);
    }
  }

  lemma {:induction false} OneToOne(image: Image, from: set<(nat, nat)>, to: set<nat>)
    requires forall p :: p in from ==> p.0 < |image.inodes| && p.1 < |image.inodes[p.0].slots|
    requires forall p, q :: p in from && q in from && image.Slot(p.0, p.1) == image.Slot(q.0, q.1) ==> p == q
    requires forall b :: b in to <==> exists p :: p in from && image.Slot(p.0, p.1) == b
    ensures |from| == |to|
    decreases |from|
  {
    if from == {} {
      assert to == {};
    } else {
      var p :| p in from;
      var b := image.Slot(p.0, p.1);
      forall c ensures c in to - {b} <==> exists q :: q in from - {p} && image.Slot(q.0, q.1) == c {
        if c in to - {b} {
          var q :| q in from && image.Slot(q.0, q.1) == c;
          assert q in from - {p};
        }
      }
      OneToOne(image, from - {p}, to - {b});
    }
  }

  // ---------------------------------------------------------------------------------
  // Writing, as the code does it
  // ---------------------------------------------------------------------------------

  /** find_free_datablock: the lowest block from start on whose bit is clear. Nothing sets the bit. */
  function FindFreeDatablock(bitmap: seq<bool>, start: nat): (b: nat)
    requires start <= |bitmap|
    ensures b == NO_BLOCK || (start <= b < |bitmap| && !bitmap[b])
    ensures |bitmap| <= NO_BLOCK ==> forall m :: start <= m < (if b == NO_BLOCK then |bitmap| else b) ==> bitmap[m]
    decreases |bitmap| - start
  {
    if start == |bitmap| then NO_BLOCK
    else if !bitmap[start] then start
    else FindFreeDatablock(bitmap, start + 1)
  }

  function Overlay(b: Block, at: nat, bytes: seq<Byte>): (r: Block)
    requires at + |bytes| <= 4096
  {
    b[..at] + bytes + b[at + |bytes|..]
  }

  /** The arguments the code answers with -1 or 0. */
  predicate Refused(image: Image, n: nat, offset: nat, buf: seq<Byte>) {
    buf == [] || n >= |image.inodes| || offset > image.inodes[n].size
  }

  /** The slots and blocks that the code writes to exist; it does not look. */
  predicate Reaches(image: Image, n: nat, offset: nat, buf: seq<Byte>)
    requires !Refused(image, n, offset, buf)
  {
    var slots := image.inodes[n].slots;
    && |slots| == 1023 && offset + |buf| <= 1023 * 4096
    && slots[offset / 4096] < |image.data|
    && (offset % 4096 + |buf| > 4096 ==>
          && offset + |buf| < 1023 * 4096 && 0 < |image.bitmap| == |image.data| <= NO_BLOCK
          && FindFreeDatablock(image.bitmap, 1) != NO_BLOCK)
  }

  /** Every block of bytes goes to the same free block, one after the other. */
  function PourInto(data: seq<Block>, b: nat, bytes: seq<Byte>): (r: seq<Block>)
    requires b < |data|
    ensures |r| == |data|
    decreases |bytes|
  {
    if |bytes| >= 4096 then PourInto(data[b := bytes[..4096]], b, bytes[4096..])
    else data[b := Overlay(data[b], 0, bytes)]
  }

  /** The slots after such a write: from the second block on they all hold the same block. */
  function Poured(slots: seq<nat>, slot: nat, last: nat, first: nat, free: nat): (r: seq<nat>)
    ensures |r| == |slots|
  {
    seq(|slots|, k requires 0 <= k < |slots| =>
      if k == slot then first else if slot < k <= last then free else slots[k])
  }

  /** What a block holds after all of bytes has been poured into it. */
  function Shared(block: Block, bytes: seq<Byte>): Block
    decreases |bytes|
  {
    if |bytes| >= 4096 then Shared(bytes[..4096], bytes[4096..]) else Overlay(block, 0, bytes)
  }

  // An inode is a block too: its size and its 1023 slots, each in four bytes, the lowest first.

  function InWord(a: int, b: int, c: int, d: int): int { a + 0x100 * b + 0x1_0000 * c + 0x100_0000 * d }

  function Word(b: Block, w: nat): nat
    requires w < 1024
  {
    InWord(b[4 * w], b[4 * w + 1], b[4 * w + 2], b[4 * w + 3])
  }

  function Decoded(b: Block): (file: Inode)
    ensures |file.slots| == 1023
  {
    Inode(Word(b, 0), seq(1023, k requires 0 <= k < 1023 => Word(b, k + 1)))
  }

  function ByteOf(v: nat, i: nat): Byte {
    if i == 0 then v % 0x100
    else if i == 1 then v / 0x100 % 0x100
    else if i == 2 then v / 0x1_0000 % 0x100
    else v / 0x100_0000 % 0x100
  }

  function Encoded(file: Inode): Block
    requires |file.slots| == 1023
  {
    seq(4096, j requires 0 <= j < 4096 => ByteOf(if j < 4 then file.size else file.slots[j / 4 - 1], j % 4))
  }

  /** Size and slots are 32-bit numbers. */
  predicate Words(file: Inode) {
    |file.slots| == 1023 && file.size <= NO_BLOCK && forall k :: 0 <= k < 1023 ==> file.slots[k] <= NO_BLOCK
  }

  /**
   A write that spans blocks when no block is free. The block number is 0xFFFFFFFF then, and
   the block of that number lies just before the first one: it is the last inode.
   */
  predicate SpansFull(image: Image, n: nat, offset: nat, buf: seq<Byte>)
    requires !Refused(image, n, offset, buf)
  {
    var slots := image.inodes[n].slots;
    && offset % 4096 + |buf| > 4096 && |slots| == 1023 && offset + |buf| < 1023 * 4096
    && slots[offset / 4096] < |image.data| && 0 < |image.bitmap| == |image.data| <= NO_BLOCK
    && FindFreeDatablock(image.bitmap, 1) == NO_BLOCK
    && n != |image.inodes| - 1 && Words(image.inodes[|image.inodes| - 1])
  }

  /** The inodes while such a write goes on: the slots of file n up to at, and the last inode as a block. */
  function FullInodes(was: seq<Inode>, n: nat, slot: nat, at: nat, first: nat, now: Block): (r: seq<Inode>)
    requires n < |was| - 1
    ensures |r| == |was| && r[n] == was[n].(slots := Poured(was[n].slots, slot, at, first, NO_BLOCK))
    ensures r[|was| - 1] == Decoded(now)
  {
    was[n := was[n].(slots := Poured(was[n].slots, slot, at, first, NO_BLOCK))][|was| - 1 := Decoded(now)]
  }

  /** The last inode as a block, once the first of the bytes have been copied. */
  function FirstPoured(was: seq<Inode>, b: nat, within: nat, bytes: seq<Byte>): Block
    requires |was| > 0 && |was[|was| - 1].slots| == 1023 && within < 4096 < within + |bytes|
  {
    var block := Encoded(was[|was| - 1]);
    if b == 0 then Overlay(block, within, bytes[..4096 - within]) else block
  }

  /** And once all of them have. */
  function LastBlock(was: seq<Inode>, b: nat, within: nat, bytes: seq<Byte>): Block
    requires |was| > 0 && |was[|was| - 1].slots| == 1023 && within < 4096 < within + |bytes|
  {
    Shared(FirstPoured(was, b, within, bytes), bytes[4096 - within..])
  }

  /** A file is at least as long as end. */
  function Grown(image: Image, n: nat, end: nat): Image
    requires n < |image.inodes|
  {
    var size := image.inodes[n].size;
    image.(inodes := image.inodes[n := image.inodes[n].(size := if end > size then end else size)])
  }

  function WriteFull(image: Image, n: nat, offset: nat, buf: seq<Byte>): (r: Image)
    requires !Refused(image, n, offset, buf) && SpansFull(image, n, offset, buf)
  {
    FullImage(Grown(image, n, offset + |buf|), n, offset / 4096, offset % 4096, buf)
  }

  function FullImage(image: Image, n: nat, slot: nat, within: nat, bytes: seq<Byte>): (r: Image)
    requires n < |image.inodes| - 1 && slot < |image.inodes[n].slots|
    requires |image.inodes[|image.inodes| - 1].slots| == 1023
    requires within < 4096 < within + |bytes| && image.inodes[n].slots[slot] < |image.data|
  {
    var (was, b) := (image.inodes, image.inodes[n].slots[slot]);
    var last := slot + 1 + (|bytes| - (4096 - within)) / 4096;
    image.(inodes := FullInodes(was, n, slot, last, if b == 0 then NO_BLOCK else b, LastBlock(was, b, within, bytes)),
           data := if b == 0 then image.data
                   else image.data[b := Overlay(image.data[b], within, bytes[..4096 - within])])
  }

  lemma FullImageIs(image: Image, n: nat, slot: nat, within: nat, bytes: seq<Byte>, first: nat, r: Image)
    requires n < |image.inodes| - 1 && slot < |image.inodes[n].slots|
    requires |image.inodes[|image.inodes| - 1].slots| == 1023
    requires within < 4096 < within + |bytes| && image.inodes[n].slots[slot] < |image.data|
    requires r.bitmap == image.bitmap
    requires var (was, b, rest) := (image.inodes, image.inodes[n].slots[slot], bytes[4096 - within..]);
      && first == (if b == 0 then NO_BLOCK else b)
      && r.inodes == FullInodes(was, n, slot, slot + 1 + |rest| / 4096, first, Shared(FirstPoured(was, b, within, bytes), rest))
      && r.data == if b == 0 then image.data else image.data[b := Overlay(image.data[b], within, bytes[..4096 - within])]
    ensures r == FullImage(image, n, slot, within, bytes)
  {}

  function WriteRaw(image: Image, n: nat, offset: nat, buf: seq<Byte>): (r: Image)
    requires !Refused(image, n, offset, buf) && Reaches(image, n, offset, buf)
  {
    var size := image.inodes[n].size;
    var file := image.inodes[n].(size := if offset + |buf| > size then offset + |buf| else size);
    var slot, within := offset / 4096, offset % 4096;
    if within + |buf| <= 4096 then
      var b := file.slots[slot];
      image.(inodes := image.inodes[n := file], data := image.data[b := Overlay(image.data[b], within, buf)])
    else
      var free := FindFreeDatablock(image.bitmap, 1);
      var remain := 4096 - within;
      var first := if file.slots[slot] == 0 then free else file.slots[slot];
      var last := slot + 1 + (|buf| - remain) / 4096;
      image.(inodes := image.inodes[n := file.(slots := Poured(file.slots, slot, last, first, free))],
             data := PourInto(image.data[first := Overlay(image.data[first], within, buf[..remain])],
                              free, buf[remain..]))
  }

  lemma LowestByte(a: Byte, q: nat)
    ensures (a + 0x100 * q) / 0x100 == q && (a + 0x100 * q) % 0x100 == a
  {}

  lemma Quotients(v: nat)
    ensures v / 0x1_0000 == v / 0x100 / 0x100 && v / 0x100_0000 == v / 0x100 / 0x100 / 0x100
  {}

  lemma WordBytes(v: nat)
    requires v <= NO_BLOCK
    ensures InWord(ByteOf(v, 0), ByteOf(v, 1), ByteOf(v, 2), ByteOf(v, 3)) == v
  {
    Quotients(v);
    var p := v / 0x100;
    var q := p / 0x100;
    var r := q / 0x100;
    assert v == 0x100 * p + v % 0x100 && p == 0x100 * q + p % 0x100 && q == 0x100 * r + q % 0x100 && r < 0x100;
  }

  lemma BytesWord(a: Byte, b: Byte, c: Byte, d: Byte)
    ensures var v := InWord(a, b, c, d);
      0 <= v <= NO_BLOCK && ByteOf(v, 0) == a && ByteOf(v, 1) == b && ByteOf(v, 2) == c && ByteOf(v, 3) == d
  {
    var r := c + 0x100 * (d as int);
    var q := b + 0x100 * r;
    var v := InWord(a, b, c, d);
    assert v == a + 0x100 * q;
    Quotients(v);
    LowestByte(a, q);
    LowestByte(b, r);
    LowestByte(c, d);
  }

  lemma DecodeEncoded(file: Inode)
    requires Words(file)
    ensures Decoded(Encoded(file)) == file
  {
    var b := Encoded(file);
    forall w | 0 <= w < 1024 ensures Word(b, w) == if w == 0 then file.size else file.slots[w - 1] {
      WordBytes(if w == 0 then file.size else file.slots[w - 1]);
    }
  }

  lemma EncodeDecoded(b: Block)
    ensures Encoded(Decoded(b)) == b && Words(Decoded(b))
  {
    forall w | 0 <= w < 1024
      ensures Word(b, w) <= NO_BLOCK
      ensures forall i :: 0 <= i < 4 ==> ByteOf(Word(b, w), i) == b[4 * w + i]
    {
      BytesWord(b[4 * w], b[4 * w + 1], b[4 * w + 2], b[4 * w + 3]);
    }
    forall j | 0 <= j < 4096 ensures Encoded(Decoded(b))[j] == b[j] {
      assert j == 4 * (j / 4) + j % 4;
    }
  }

  /** Different blocks are different inodes. */
  lemma DecodedIs(b: Block, file: Inode)
    requires Words(file)
    ensures Decoded(b) == file <==> b == Encoded(file)
  {
    DecodeEncoded(file);
    EncodeDecoded(b);
  }

  lemma SameSlots(a: Image, b: Image, names: set<nat>, block: nat)
    requires a.Sound() && b.Sound()
    requires forall n :: n in names ==> n < |a.inodes| && n < |b.inodes| && a.inodes[n].slots == b.inodes[n].slots
    ensures Taken(a, names, block) <==> Taken(b, names, block)
  {
    if Taken(a, names, block) {
      var n, k :| n in names && 0 <= k < 1023 && a.Slot(n, k) == block;
      assert b.Slot(n, k) == block;
    }
    if Taken(b, names, block) {
      var n, k :| n in names && 0 <= k < 1023 && b.Slot(n, k) == block;
      assert a.Slot(n, k) == block;
    }
  }

  predicate WithinBlock(image: Image, n: nat, offset: nat, buf: seq<Byte>)
    requires !Refused(image, n, offset, buf) && Reaches(image, n, offset, buf)
  {
    offset % 4096 + |buf| <= 4096 && image.inodes[n].slots[offset / 4096] != 0
  }

  lemma WithinBlockOwned(image: Image, names: set<nat>, n: nat, offset: nat, buf: seq<Byte>)
    requires Owned(image, names) && n in names
    requires !Refused(image, n, offset, buf) && Reaches(image, n, offset, buf) && WithinBlock(image, n, offset, buf)
    ensures Owned(WriteRaw(image, n, offset, buf), names)
  {
    var r := WriteRaw(image, n, offset, buf);
    assert forall m :: m in names ==> r.inodes[m].slots == image.inodes[m].slots;
    assert forall m, k :: m in names && 0 <= k < 1023 ==> r.Slot(m, k) == image.Slot(m, k);
    assert Packed(r.inodes[n], |r.data|);
    forall b | 0 < b < |r.data| ensures r.bitmap[b] <==> Taken(r, names, b) {
      SameSlots(image, r, names, b);
    }
  }

  /** Within one block that the file has, a write splices that file and touches no other. */
  lemma WithinBlockContent(image: Image, names: set<nat>, n: nat, offset: nat, buf: seq<Byte>, m: nat)
    requires Owned(image, names) && n in names && m in names
    requires !Refused(image, n, offset, buf) && Reaches(image, n, offset, buf) && WithinBlock(image, n, offset, buf)
    ensures WriteRaw(image, n, offset, buf).inodes[m].Sound(|image.data|)
    ensures WriteRaw(image, n, offset, buf).Content(m)
      == if m == n then Splice(image.Content(n), offset, buf) else image.Content(m)
  {
    var r := WriteRaw(image, n, offset, buf);
    assert Packed(image.inodes[m], |image.data|) && Packed(image.inodes[n], |image.data|);
    WithinBlockOwned(image, names, n, offset, buf);
    assert r.inodes[m].slots == image.inodes[m].slots && Packed(r.inodes[m], |r.data|);
    var want := if m == n then Splice(image.Content(n), offset, buf) else image.Content(m);
    forall i | 0 <= i < r.inodes[m].size ensures r.data[r.inodes[m].slots[i / 4096]][i % 4096] == want[i] {
      SlotInUse(r.inodes[m], |r.data|, i);
      WithinBlockByte(image, names, n, offset, buf, m, i);
      if m == n { SpliceAt(image.Content(n), offset, buf, i); }
    }
    ContentIs(r, m, want);
  }

  lemma SlotInUse(file: Inode, blocks: nat, i: nat)
    requires Packed(file, blocks) && i < file.size
    ensures i / 4096 < 1023 && file.slots[i / 4096] != 0
  {
    assert i / 4096 < Inode.Span(file.size);
  }

  lemma SpliceAt(content: seq<Byte>, offset: nat, buf: seq<Byte>, i: nat)
    requires offset <= |content| && i < |Splice(content, offset, buf)|
    ensures offset <= i < offset + |buf| ==> Splice(content, offset, buf)[i] == buf[i - offset]
    ensures !(offset <= i < offset + |buf|) ==> i < |content| && Splice(content, offset, buf)[i] == content[i]
  {}

  /** Content, byte by byte. */
  lemma ContentIs(image: Image, n: nat, want: seq<Byte>)
    requires n < |image.inodes| && image.inodes[n].Sound(|image.data|) && |want| == image.inodes[n].size
    requires forall i :: 0 <= i < |want| ==> image.data[image.inodes[n].slots[i / 4096]][i % 4096] == want[i]
    ensures image.Content(n) == want
  {}

  lemma WithinBlockByte(image: Image, names: set<nat>, n: nat, offset: nat, buf: seq<Byte>, m: nat, i: nat)
    requires forall k :: k in names ==> k < |image.inodes| && |image.inodes[k].slots| == 1023
    requires Unshared(image, names) && n in names && m in names && Packed(image.inodes[n], |image.data|)
    requires !Refused(image, n, offset, buf) && Reaches(image, n, offset, buf) && WithinBlock(image, n, offset, buf)
    requires var r := WriteRaw(image, n, offset, buf);
      && i < r.inodes[m].size && i < 1023 * 4096
      && 0 != image.inodes[m].slots[i / 4096] < |image.data|
    ensures var r := WriteRaw(image, n, offset, buf);
      r.data[r.inodes[m].slots[i / 4096]][i % 4096] ==
        if m == n && offset <= i < offset + |buf| then buf[i - offset]
        else image.data[image.inodes[m].slots[i / 4096]][i % 4096]
  {
    var slot := offset / 4096;
    assert image.Slot(m, i / 4096) == image.Slot(n, slot) ==> m == n && i / 4096 == slot;
  }

  /** Past the end of a block, or in a block it does not have, a write breaks the ownership. */
  lemma WriteRawBreaks(image: Image, names: set<nat>, n: nat, offset: nat, buf: seq<Byte>)
    requires Owned(image, names) && n in names
    requires !Refused(image, n, offset, buf) && Reaches(image, n, offset, buf)
    requires !WithinBlock(image, n, offset, buf)
    ensures !Owned(WriteRaw(image, n, offset, buf), names)
  {
    var r := WriteRaw(image, n, offset, buf);
    var slot := offset / 4096;
    if offset % 4096 + |buf| > 4096 {
      var free := FindFreeDatablock(image.bitmap, 1);
      assert r.Slot(n, slot + 1) == free && !r.bitmap[free];
      if r.Sound() {
        assert Taken(r, names, free);
      }
    } else {
      assert slot < Inode.Span(r.inodes[n].size) && r.inodes[n].slots[slot] == 0;
    }
  }

  /** A write keeps the ownership of blocks exactly when it stays within one block that the file has. */
  lemma WriteRawKeepsOwnership(image: Image, names: set<nat>, n: nat, offset: nat, buf: seq<Byte>)
    requires Owned(image, names) && n in names
    requires !Refused(image, n, offset, buf) && Reaches(image, n, offset, buf)
    ensures Owned(WriteRaw(image, n, offset, buf), names) <==> WithinBlock(image, n, offset, buf)
  {
    if WithinBlock(image, n, offset, buf) {
      WithinBlockOwned(image, names, n, offset, buf);
    } else {
      WriteRawBreaks(image, names, n, offset, buf);
    }
  }

  /** The smallest disk on which it goes wrong: the first byte of a new file. */
  lemma FirstWriteBreaks()
    ensures var image := Image([Inode(0, seq(1023, _ => 0))], seq(2, _ => seq(4096, _ => 0)), [false, false]);
      && Owned(image, {0}) && !Refused(image, 0, 0, [65]) && Reaches(image, 0, 0, [65])
      && !Owned(WriteRaw(image, 0, 0, [65]), {0})
  {
    var image := Image([Inode(0, seq(1023, _ => 0))], seq(2, _ => seq(4096, _ => 0)), [false, false]);
    WriteRawBreaks(image, {0}, 0, 0, [65]);
  }

  // ---------------------------------------------------------------------------------
  // Deleting, as the code does it
  // ---------------------------------------------------------------------------------

  /** Where the loop of delete stops: at an empty slot, or after as many slots as there are inodes. */
  function Stop(slots: seq<nat>, i: nat, limit: nat): (r: nat)
    requires i <= limit <= |slots|
    ensures i <= r <= limit && (r < limit ==> slots[r] == 0)
    ensures forall k :: i <= k < r ==> slots[k] != 0
    decreases limit - i
  {
    if i == limit || slots[i] == 0 then i else Stop(slots, i + 1, limit)
  }

  function DeleteEnd(image: Image, n: nat): nat
    requires n < |image.inodes|
  {
    var slots := image.inodes[n].slots;
    Stop(slots, 0, Min(|image.inodes|, |slots|))
  }

  /** As written: the blocks are zeroed, but the bits cleared are those of the slots' own numbers. */
  function DeleteRaw(image: Image, n: nat): (r: Image)
    requires n < |image.inodes|
  {
    var slots := image.inodes[n].slots;
    var end := DeleteEnd(image, n);
    image.(data := seq(|image.data|, b requires 0 <= b < |image.data| =>
             if b in slots[..end] then ZEROS else image.data[b]),
           bitmap := seq(|image.bitmap|, b requires 0 <= b < |image.bitmap| => image.bitmap[b] && b >= end))
  }

  /** Slot k is in use, as all before it, and the loop of delete gets that far. */
  ghost predicate LooksAt(image: Image, n: nat, k: nat)
    requires n < |image.inodes|
  {
    var slots := image.inodes[n].slots;
    k < |slots| && k < |image.inodes| && forall j :: 0 <= j <= k ==> slots[j] != 0
  }

  /** Block b is in one of those slots. */
  ghost predicate Emptied(image: Image, n: nat, b: nat)
    requires n < |image.inodes|
  {
    exists k: nat :: LooksAt(image, n, k) && image.inodes[n].slots[k] == b
  }

  /** What delete leaves of the disk: the blocks of the slots are zeroed, and the bits of the slots' own numbers are cleared. */
  ghost predicate Zeroed(image: Image, after: Image, n: nat)
    requires n < |image.inodes|
  {
    && after.inodes == image.inodes && |after.data| == |image.data| && |after.bitmap| == |image.bitmap|
    && (forall b :: 0 <= b < |image.data| && Emptied(image, n, b) ==> forall j :: 0 <= j < 4096 ==> after.data[b][j] == 0)
    && (forall b :: 0 <= b < |image.data| && !Emptied(image, n, b) ==> after.data[b] == image.data[b])
    && (forall b :: 0 <= b < |image.bitmap| ==> (after.bitmap[b] <==> image.bitmap[b] && !LooksAt(image, n, b)))
  }

  lemma DeleteRawIs(image: Image, n: nat)
    requires n < |image.inodes|
    ensures Zeroed(image, DeleteRaw(image, n), n)
  {
    var (slots, end) := (image.inodes[n].slots, DeleteEnd(image, n));
    forall k: nat ensures LooksAt(image, n, k) <==> k < end {}
    forall b: nat ensures Emptied(image, n, b) <==> b in slots[..end] {
      if b in slots[..end] {
        var k: nat :| k < end && slots[..end][k] == b;
        assert LooksAt(image, n, k) && slots[k] == b;
      }
      if Emptied(image, n, b) {
        var k: nat :| LooksAt(image, n, k) && image.inodes[n].slots[k] == b;
        assert slots[..end][k] == b;
      }
    }
  }

  lemma NotOthers(image: Image, names: set<nat>, m: nat, k: nat, n: nat)
    requires Owned(image, names) && m in names && n in names && m != n && k < 1023 && image.Slot(m, k) != 0
    ensures image.Slot(m, k) !in image.inodes[n].slots
  {
    forall j | 0 <= j < 1023 ensures image.inodes[n].slots[j] != image.Slot(m, k) {
      assert image.Slot(n, j) == image.inodes[n].slots[j];
    }
  }

  /** The bytes of the other files stay. */
  lemma DeleteRawContent(image: Image, names: set<nat>, n: nat, m: nat)
    requires Owned(image, names) && n in names && m in names && m != n
    ensures DeleteRaw(image, n).Content(m) == image.Content(m)
  {
    var r := DeleteRaw(image, n);
    assert Packed(image.inodes[m], |image.data|);
    forall i | 0 <= i < image.inodes[m].size
      ensures r.data[r.inodes[m].slots[i / 4096]][i % 4096] == image.Content(m)[i]
    {
      SlotInUse(image.inodes[m], |image.data|, i);
      NotOthers(image, names, m, i / 4096, n);
    }
    ContentIs(r, m, image.Content(m));
  }

  lemma {:induction false} Pigeonhole(s: seq<nat>, m: nat)
    requires forall i :: 0 <= i < |s| ==> 0 < s[i] <= m
    requires forall i, j :: 0 <= i < j < |s| ==> s[i] != s[j]
    ensures |s| <= m
    decreases m
  {
    if s != [] {
      assert 0 < s[0] <= m;
      if i :| 0 <= i < |s| && s[i] == m {
        Pigeonhole(s[..i] + s[i + 1..], m - 1);
      } else {
        Pigeonhole(s, m - 1);
      }
    }
  }

  /** A block that the file gives back has its bit cleared only if its number is small. */
  lemma DeletedBelow(image: Image, names: set<nat>, n: nat, k: nat)
    requires Owned(image, names) && n in names
    requires Owned(DeleteRaw(image, n), names - {n})
    requires k < 1023 && image.inodes[n].slots[k] != 0
    ensures image.inodes[n].slots[k] < DeleteEnd(image, n)
  {
    var (r, b) := (DeleteRaw(image, n), image.Slot(n, k));
    assert Packed(image.inodes[n], |image.data|) && Taken(image, names, b);
    forall m, j | m in names - {n} && 0 <= j < 1023 ensures r.Slot(m, j) != b {
      assert r.Slot(m, j) == image.Slot(m, j);
    }
    assert !Taken(r, names - {n}, b);
  }

  /** delete keeps the ownership of blocks exactly when the file has no block. */
  lemma DeleteRawKeepsOwnership(image: Image, names: set<nat>, n: nat)
    requires Owned(image, names) && n in names
    ensures Owned(DeleteRaw(image, n), names - {n}) <==> image.inodes[n].slots[0] == 0
  {
    var (r, slots) := (DeleteRaw(image, n), image.inodes[n].slots);
    var end := DeleteEnd(image, n);
    assert Packed(image.inodes[n], |image.data|);
    if slots[0] == 0 {
      assert r.data == image.data && r.bitmap == image.bitmap;
      forall b | 0 < b < |r.data| ensures r.bitmap[b] <==> Taken(r, names - {n}, b) {
        if Taken(image, names, b) {
          var m, k :| m in names && 0 <= k < 1023 && image.Slot(m, k) == b;
          assert m in names - {n} && r.Slot(m, k) == b;
        }
        if Taken(r, names - {n}, b) {
          var m, k :| m in names - {n} && 0 <= k < 1023 && r.Slot(m, k) == b;
          assert m in names && image.Slot(m, k) == b;
        }
      }
    } else if Owned(r, names - {n}) {
      forall k | 0 <= k < end ensures 0 < slots[..end][k] <= end - 1 {
        DeletedBelow(image, names, n, k);
      }
      assert forall k :: 0 <= k < end ==> slots[..end][k] == image.Slot(n, k);
      Pigeonhole(slots[..end], end - 1);
    }
  }

  /** A file of one block: its bit stays set when it is gone. */
  lemma FirstDeleteBreaks()
    ensures var image := Image([Inode(1, [1] + seq(1022, _ => 0))], [ZEROS, ZEROS], [false, true]);
      Owned(image, {0}) && !Owned(DeleteRaw(image, 0), {0} - {0})
  {
    var image := Image([Inode(1, [1] + seq(1022, _ => 0))], [ZEROS, ZEROS], [false, true]);
    assert Packed(image.inodes[0], 2) && image.Slot(0, 0) == 1;
    forall b | 0 < b < 2 ensures image.bitmap[b] <==> Taken(image, {0}, b) {
      assert b == 1;
    }
    DeleteRawKeepsOwnership(image, {0}, 0);
  }

  // ---------------------------------------------------------------------------------
  // Creating, as the code does it
  // ---------------------------------------------------------------------------------

  /** Bits behind the last block of the disk are never set. */
  predicate Bit(bitmap: seq<bool>, n: nat) { n < |bitmap| && bitmap[n] }

  /** find_free_inode, which looks at the bitmap of the data blocks. */
  function LowestInode(bitmap: seq<bool>, inodes: nat, from: nat): (n: nat)
    requires inodes <= Directory.NO_INODE
    ensures n == Directory.NO_INODE || (from <= n < inodes && !Bit(bitmap, n))
    ensures forall m :: from <= m < (if n == Directory.NO_INODE then inodes else n) ==> Bit(bitmap, m)
    decreases inodes - from
  {
    if from >= inodes then Directory.NO_INODE
    else if !Bit(bitmap, from) then from
    else LowestInode(bitmap, inodes, from + 1)
  }

  /** Block n is the first free one, and there is an inode of that number. */
  predicate FirstFreeBlock(bitmap: seq<bool>, inodes: nat, n: nat) {
    1 <= n < inodes && !Bit(bitmap, n) && forall m :: 1 <= m < n ==> Bit(bitmap, m)
  }

  lemma FoundInode(bitmap: seq<bool>, inodes: nat, n: nat)
    requires inodes <= Directory.NO_INODE && n < Directory.NO_INODE
    ensures FirstFreeBlock(bitmap, inodes, n) <==> LowestInode(bitmap, inodes, 1) == n
  {}

  /** What create does to the disk: the inode found is given the size 0, and keeps its slots. */
  function CreateRaw(image: Image, n: nat): Image
    requires n < |image.inodes|
  {
    image.(inodes := image.inodes[n := image.inodes[n].(size := 0)])
  }

  /** create keeps the ownership of blocks exactly when the inode is in use already or has no block left over. */
  lemma CreateRawKeepsOwnership(image: Image, names: set<nat>, n: nat)
    requires Owned(image, names) && n < |image.inodes|
    ensures Owned(CreateRaw(image, n), names + {n})
      <==> n in names || forall k :: 0 <= k < 1023 ==> image.inodes[n].slots[k] == 0
  {
    var r := CreateRaw(image, n);
    assert forall m :: m in names ==> Packed(image.inodes[m], |image.data|);
    assert forall m: nat, k :: m < |image.inodes| && 0 <= k < 1023 ==> r.Slot(m, k) == image.Slot(m, k);
    if n in names || forall k :: 0 <= k < 1023 ==> image.inodes[n].slots[k] == 0 {
      assert Packed(r.inodes[n], |r.data|);
      forall b | 0 < b < |r.data| ensures r.bitmap[b] <==> Taken(r, names + {n}, b) {
        CreateTaken(image, names, n, b);
      }
    } else if Owned(r, names + {n}) {
      forall k | 0 <= k < 1023 ensures image.inodes[n].slots[k] == 0 {
        NothingLeftOver(image, names, n, k);
      }
    }
  }

  lemma NothingLeftOver(image: Image, names: set<nat>, n: nat, k: nat)
    requires Owned(image, names) && n < |image.inodes| && n !in names && k < 1023
    requires Owned(CreateRaw(image, n), names + {n})
    ensures image.Slot(n, k) == 0
  {
    var (r, b) := (CreateRaw(image, n), image.Slot(n, k));
    assert n in names + {n} && r.Slot(n, k) == b;
    assert Packed(r.inodes[n], |r.data|) && Taken(r, names + {n}, b);
    forall m, j | m in names && 0 <= j < 1023 ensures image.Slot(m, j) == b ==> b == 0 {
      assert m in names + {n} && r.Slot(m, j) == image.Slot(m, j);
    }
    assert Taken(image, names, b) ==> b == 0;
  }

  lemma CreateTaken(image: Image, names: set<nat>, n: nat, b: nat)
    requires image.Sound() && n < |image.inodes| && b != 0 && forall m :: m in names ==> m < |image.inodes|
    requires n in names || forall k :: 0 <= k < 1023 ==> image.inodes[n].slots[k] == 0
    ensures Taken(CreateRaw(image, n), names + {n}, b) <==> Taken(image, names, b)
  {
    var r := CreateRaw(image, n);
    if Taken(image, names, b) {
      var m, k :| m in names && 0 <= k < 1023 && image.Slot(m, k) == b;
      assert m in names + {n} && r.Slot(m, k) == b;
    }
    if Taken(r, names + {n}, b) {
      var m, k :| m in names + {n} && 0 <= k < 1023 && r.Slot(m, k) == b;
      assert image.Slot(m, k) == b && m in names;
    }
  }

  lemma CreateRawContent(image: Image, n: nat, m: nat)
    requires image.Sound() && n < |image.inodes| && m < |image.inodes|
    ensures CreateRaw(image, n).Content(m) == if m == n then [] else image.Content(m)
  {}

  /** create keeps the bytes of every file exactly when no file of some size has the number of the first free block. */
  lemma CreateKeepsBytes(image: Image, names: set<nat>)
    requires Owned(image, names) && |image.inodes| <= Directory.NO_INODE
    requires LowestInode(image.bitmap, |image.inodes|, 1) != Directory.NO_INODE
    ensures var r := CreateRaw(image, LowestInode(image.bitmap, |image.inodes|, 1));
      (forall m :: m in names ==> r.Content(m) == image.Content(m))
      <==> forall m :: m in names && FirstFreeBlock(image.bitmap, |image.inodes|, m) ==> image.inodes[m].size == 0
  {
    var n := LowestInode(image.bitmap, |image.inodes|, 1);
    var r := CreateRaw(image, n);
    forall m | m in names
      ensures FirstFreeBlock(image.bitmap, |image.inodes|, m) <==> m == n
      ensures r.Content(m) == image.Content(m) <==> m != n || image.inodes[m].size == 0
    {
      FoundInode(image.bitmap, |image.inodes|, m);
      CreateRawContent(image, n, m);
    }
  }

  /** A disk of three blocks with one file, of one byte, in inode 1 and block 2. */
  function OneByteFile(): Image {
    Image([Inode(0, seq(1023, _ => 0)), Inode(1, [2] + seq(1022, _ => 0))], [ZEROS, ZEROS, ZEROS], [false, false, true])
  }

  lemma OneByteFileOwned()
    ensures Owned(OneByteFile(), {1})
  {
    var image := OneByteFile();
    assert Packed(image.inodes[1], 3) && image.Slot(1, 0) == 2;
    assert forall k :: 1 <= k < 1023 ==> image.Slot(1, k) == 0;
  }

  /** The next create empties that file. */
  lemma FirstCreateEmpties()
    ensures Owned(OneByteFile(), {1}) && LowestInode(OneByteFile().bitmap, 2, 1) == 1
    ensures OneByteFile().Content(1) == [0] && CreateRaw(OneByteFile(), 1).Content(1) == []
  {
    OneByteFileOwned();
    CreateRawContent(OneByteFile(), 1, 1);
  }

  // ---------------------------------------------------------------------------------
  // Reading a file through its descriptor
  // ---------------------------------------------------------------------------------

  /** The read system call over and over: each answer moves file_pos by its length. */
  function Reads(content: seq<Byte>, pos: nat, counts: seq<nat>): (r: seq<seq<Byte>>)
    ensures |r| == |counts|
    decreases |counts|
  {
    if counts == [] then []
    else
      var piece := Slice(content, pos, counts[0]);
      [piece] + Reads(content, pos + |piece|, counts[1..])
  }

  function Joined(pieces: seq<seq<Byte>>): seq<Byte> {
    if pieces == [] then [] else pieces[0] + Joined(pieces[1..])
  }

  /**
   Whatever positive counts are asked for, the answers are consecutive pieces of the file,
   and once an answer is empty they are all of it.
   */
  lemma {:induction false} ReadsCoverFile(content: seq<Byte>, pos: nat, counts: seq<nat>)
    requires pos <= |content| && forall k :: 0 <= k < |counts| ==> counts[k] > 0
    ensures var all := Joined(Reads(content, pos, counts));
      && all <= content[pos..]
      && (counts != [] && Reads(content, pos, counts)[|counts| - 1] == [] ==> all == content[pos..])
    decreases |counts|
  {
    if counts != [] {
      var piece := Slice(content, pos, counts[0]);
      var rest := Reads(content, pos + |piece|, counts[1..]);
      ReadsCoverFile(content, pos + |piece|, counts[1..]);
      assert content[pos..] == piece + content[pos + |piece|..];
      assert Reads(content, pos, counts)[1..] == rest;
      if piece == [] {
        assert pos == |content|;
      } else if rest != [] {
        assert Reads(content, pos, counts)[|counts| - 1] == rest[|rest| - 1];
      }
    }
  }

  function Sum(counts: seq<nat>): nat {
    if counts == [] then 0 else counts[0] + Sum(counts[1..])
  }

  /** An answer is empty exactly when the counts before it add up to the rest of the file. */
  lemma {:induction false} EmptyExactly(content: seq<Byte>, pos: nat, counts: seq<nat>, i: nat)
    requires pos <= |content| && i < |counts| && forall k :: 0 <= k < |counts| ==> counts[k] > 0
    ensures Reads(content, pos, counts)[i] == [] <==> Sum(counts[..i]) >= |content| - pos
    decreases i
  {
    var piece := Slice(content, pos, counts[0]);
    assert Reads(content, pos, counts)[0] == piece;
    if i > 0 {
      EmptyExactly(content, pos + |piece|, counts[1..], i - 1);
      assert counts[..i][1..] == counts[1..][..i - 1];
      assert Reads(content, pos, counts)[i] == Reads(content, pos + |piece|, counts[1..])[i - 1];
    }
  }

  lemma {:induction false} EqualCounts(count: nat, n: nat)
    ensures Sum(seq(n, _ => count)) == count * n
  {
    var counts := seq(n, _ => count);
    if n > 0 {
      assert counts[1..] == seq(n - 1, _ => count);
      EqualCounts(count, n - 1);
    }
  }

  /** Reads of one size come back empty exactly from the one on at which they have covered the file. */
  lemma FirstEmptyRead(content: seq<Byte>, count: nat, n: nat, i: nat)
    requires count > 0 && i < n
    ensures Reads(content, 0, seq(n, _ => count))[i] == [] <==> count * i >= |content|
  {
    var counts := seq(n, _ => count);
    EmptyExactly(content, 0, counts, i);
    assert counts[..i] == seq(i, _ => count);
    EqualCounts(count, i);
  }

  lemma NamedMore(dentries: seq<Directory.Dentry>, i: nat)
    requires i < |dentries|
    ensures Named(dentries[..i + 1])
      == Named(dentries[..i]) + if Directory.IsNamed(dentries[i]) then {dentries[i].inode} else {}
    ensures Named(dentries[..i + 1]) <= Named(dentries)
  {
    assert dentries[..i + 1] == dentries[..i] + [dentries[i]];
    forall n | n in Named(dentries[..i]) ensures n in Named(dentries[..i + 1]) {
      var k :| 0 <= k < i && Directory.IsNamed(dentries[..i][k]) && dentries[..i][k].inode == n;
      assert dentries[..i + 1][k].inode == n;
    }
    assert dentries[..i + 1][i] == dentries[i];
  }

  lemma SameMarks(a: Image, b: Image, names: set<nat>, limit: nat, block: nat)
    requires a.Sound() && b.Sound() && a.inodes == b.inodes && limit <= 1023
    requires forall n :: n in names ==> n < |a.inodes|
    ensures Marks(a, names, limit, block) <==> Marks(b, names, limit, block)
  {
    assert forall n, k :: n in names && 0 <= k < limit ==> a.Slot(n, k) == b.Slot(n, k);
  }

  lemma MarkedMore(image: Image, names: set<nat>, limit: nat, n: nat, j: nat, b: nat)
    requires image.Sound() && n < |image.inodes| && Packed(image.inodes[n], |image.data|) && b != 0
    requires forall m :: m in names ==> m < |image.inodes|
    requires j <= limit <= 1023 && (j < limit ==> image.inodes[n].slots[j] == 0)
    ensures Marks(image, names + {n}, limit, b) <==> Marks(image, names, limit, b) || b in image.inodes[n].slots[..j]
  {
    var slots := image.inodes[n].slots;
    if Marks(image, names, limit, b) {
      var m, k :| m in names && 0 <= k < limit && image.Slot(m, k) == b;
      assert m in names + {n};
    }
    if b in slots[..j] {
      var k :| 0 <= k < j && slots[..j][k] == b;
      assert n in names + {n} && image.Slot(n, k) == b;
    }
    if Marks(image, names + {n}, limit, b) && !Marks(image, names, limit, b) {
      var m, k :| m in names + {n} && 0 <= k < limit && image.Slot(m, k) == b;
      assert m == n && slots[..j][k] == b;
    }
  }

  class Globals {
    var inodes: seq<Inode>
    var data: seq<Block>
    var bitmap: seq<bool>

    ghost function Now(): Image
      reads this
    {
      Image(inodes, data, bitmap)
    }

    constructor (image: Image)
      ensures Now() == image
    {
      inodes, data, bitmap := image.inodes, image.data, image.bitmap;
    }

    /** memcpy of n bytes of a file, all in one slot. */
    method CopyOut(inode: nat, slot: nat, within: nat, buf: array<Byte>, at: nat, n: nat)
      requires inode < |inodes| && inodes[inode].Sound(|data|)
      requires n > 0 && within + n <= 4096 && 4096 * slot + within + n <= inodes[inode].size
      requires at + n <= buf.Length
      modifies buf
      ensures forall k :: 0 <= k < buf.Length ==>
        buf[k] == if at <= k < at + n then Now().Content(inode)[4096 * slot + within + (k - at)] else old(buf[k])
    {
      var block := inodes[inode].slots[slot];
      forall k | at <= k < at + n {
        buf[k] := data[block][within + (k - at)];
      }
      forall k | at <= k < at + n
        ensures buf[k] == Now().Content(inode)[4096 * slot + within + (k - at)]
      {
        var i := 4096 * slot + within + (k - at);
        assert i / 4096 == slot && i % 4096 == within + (k - at);
      }
    }

    /**
     read_data. The slot behind the last full block is looked up even when no byte is left
     to copy from it; the model looks it up only when there is one.
     */
    method ReadData(inode: nat, offset: nat, buf: array?<Byte>, len: nat) returns (r: int)
      requires Now().Sound() && (buf != null ==> len <= buf.Length)
      modifies buf
      ensures r == -1 <==> buf == null || len == 0 || inode >= |inodes|
      ensures r != -1 ==>
        r == if offset >= inodes[inode].size then 0 else if len < inodes[inode].size - offset then len else inodes[inode].size - offset
      ensures r != -1 ==> forall k :: 0 <= k < r ==> buf[k] == Now().Content(inode)[offset + k]
      ensures r != -1 ==> buf[..r] == Slice(Now().Content(inode), offset, len)
      ensures buf != null ==> forall k :: (if r < 0 then 0 else r) <= k < buf.Length ==> buf[k] == old(buf[k])
    {
      if buf == null || len == 0 || inode >= |inodes| { return -1; }
      ghost var content := Now().Content(inode);
      var size := inodes[inode].size;
      if offset >= size { return 0; }
      var remain := size - offset;
      var count := if remain < len then remain else len;

      var slot, within := offset / 4096, offset % 4096;
      remain := 4096 - within;
      if remain >= count {
        CopyOut(inode, slot, within, buf, 0, count);
      } else {
        ReadAcross(inode, offset, buf, count);
      }
      assert forall k :: 0 <= k < count ==> buf[k] == content[offset + k];
      assert buf[..count] == content[offset..offset + count];
      return count;
    }

    /** The branch of read_data that spans blocks. */
    method ReadAcross(inode: nat, offset: nat, buf: array<Byte>, count: nat)
      requires inode < |inodes| && inodes[inode].Sound(|data|)
      requires 4096 - offset % 4096 < count <= buf.Length && offset + count <= inodes[inode].size
      modifies buf
      ensures forall k :: 0 <= k < buf.Length ==>
        buf[k] == if k < count then Now().Content(inode)[offset + k] else old(buf[k])
    {
      ghost var content := Now().Content(inode);
      var slot, pos := offset / 4096, 4096 - offset % 4096;
      CopyOut(inode, slot, offset % 4096, buf, 0, pos);
      var remain := count - pos;
      slot := slot + 1;
      while remain >= 4096
        invariant 0 <= remain && pos + remain == count && offset + pos == 4096 * slot
        invariant forall k :: 0 <= k < buf.Length ==> buf[k] == if k < pos then content[offset + k] else old(buf[k])
      {
        CopyOut(inode, slot, 0, buf, pos, 4096);
        slot, remain, pos := slot + 1, remain - 4096, pos + 4096;
      }
      if remain > 0 {
        CopyOut(inode, slot, 0, buf, pos, remain);
      }
    }

    /** file_system_init, on cleared bitmaps; the answer is the inode bitmap. */
    method FileSystemInit(dentries: seq<Directory.Dentry>) returns (inodeBitmap: seq<bool>)
      requires Now().Sound() && |bitmap| == |data| && forall b :: 0 <= b < |bitmap| ==> !bitmap[b]
      requires forall n :: n in Named(dentries) ==> n < |inodes| && Packed(inodes[n], |data|)
      modifies this`bitmap
      ensures |bitmap| == |data| && |inodeBitmap| == |inodes|
      ensures forall n :: 0 <= n < |inodes| ==> (inodeBitmap[n] <==> n in Named(dentries))
      ensures forall b :: 0 < b < |data| ==> (bitmap[b] <==> Marks(Now(), Named(dentries), MOUNTED, b))
    {
      inodeBitmap := seq(|inodes|, _ => false);
      ghost var names: set<nat> := {};
      var i := 0;
      while i < |dentries|
        invariant 0 <= i <= |dentries| && names == Named(dentries[..i]) <= Named(dentries)
        invariant |bitmap| == |data| && |inodeBitmap| == |inodes|
        invariant forall n :: 0 <= n < |inodes| ==> (inodeBitmap[n] <==> n in names)
        invariant forall b :: 0 < b < |data| ==> (bitmap[b] <==> Marks(Now(), names, MOUNTED, b))
      {
        NamedMore(dentries, i);
        if Directory.IsNamed(dentries[i]) {
          var n := dentries[i].inode;
          inodeBitmap := inodeBitmap[n := true];
          MarkFile(n, names);
          names := names + {n};
        }
        i := i + 1;
      }
      assert dentries[..i] == dentries;
    }

    /** Sets the bits of a file's blocks, up to its first empty slot or 64 of them. */
    method MarkFile(n: nat, ghost names: set<nat>)
      requires Now().Sound() && n < |inodes| && Packed(inodes[n], |data|) && |bitmap| == |data|
      requires forall m :: m in names ==> m < |inodes|
      requires forall b :: 0 < b < |data| ==> (bitmap[b] <==> Marks(Now(), names, MOUNTED, b))
      modifies this`bitmap
      ensures |bitmap| == |data|
      ensures forall b :: 0 < b < |data| ==> (bitmap[b] <==> Marks(Now(), names + {n}, MOUNTED, b))
    {
      ghost var was, before := bitmap, Now();
      var slots, j := inodes[n].slots, 0;
      while slots[j] != 0 && j < 64
        invariant 0 <= j <= 64 && |bitmap| == |data|
        invariant forall b :: 0 < b < |data| ==> (bitmap[b] <==> was[b] || b in slots[..j])
        decreases 64 - j
      {
        bitmap := bitmap[slots[j] := true];
        assert slots[..j + 1] == slots[..j] + [slots[j]];
        j := j + 1;
      }
      forall b | 0 < b < |data| ensures bitmap[b] <==> Marks(Now(), names + {n}, MOUNTED, b) {
        MarkedMore(before, names, MOUNTED, n, j, b);
        SameMarks(before, Now(), names + {n}, MOUNTED, b);
      }
    }

    /**
     The loop of delete over the blocks of a file, which looks behind the last slot unless it
     stops before. Bits behind the last block of the disk are not kept here.
     */
    method ZeroBlocks(n: nat)
      requires n < |inodes| && |inodes[n].slots| == 1023 && forall k :: 0 <= k < 1023 ==> inodes[n].slots[k] < |data|
      requires |inodes| < 1023 || 0 in inodes[n].slots
      modifies this`data, this`bitmap
      ensures Now() == DeleteRaw(old(Now()), n)
    {
      ghost var was, limit := Now(), Min(|inodes|, 1023);
      var slots, i := inodes[n].slots, 0;
      ghost var zeroed: seq<nat> := [];
      while slots[i] != 0 && i < |inodes|
        invariant 0 <= i <= limit && Stop(slots, i, limit) == Stop(slots, 0, limit)
        invariant i < 1023 && zeroed == slots[..i] && 0 !in zeroed
        invariant |data| == |was.data| && |bitmap| == |was.bitmap|
        invariant forall b :: 0 <= b < |data| ==> data[b] == if b in zeroed then ZEROS else was.data[b]
        invariant forall b :: 0 <= b < |bitmap| ==> (bitmap[b] <==> was.bitmap[b] && b >= i)
        decreases limit - i
      {
        zeroed := zeroed + [slots[i]];
        data := data[slots[i] := ZEROS];
        if i < |bitmap| { bitmap := bitmap[i := false]; }
        i := i + 1;
      }
      assert i == DeleteEnd(was, n);
      assert data == DeleteRaw(was, n).data;
      assert bitmap == DeleteRaw(was, n).bitmap;
    }

    method FindFreeInode() returns (inode: nat)
      requires |inodes| <= Directory.NO_INODE
      ensures inode == LowestInode(bitmap, |inodes|, 1)
    {
      inode := 1;
      while inode < |inodes|
        invariant 1 <= inode && LowestInode(bitmap, |inodes|, inode) == LowestInode(bitmap, |inodes|, 1)
      {
        if !Bit(bitmap, inode) { return; }
        inode := inode + 1;
      }
      return Directory.NO_INODE;
    }

    /** What create does to the inode it has found. */
    method EmptyInode(inode: nat)
      requires inode < |inodes|
      modifies this`inodes
      ensures Now() == CreateRaw(old(Now()), inode)
    {
      inodes := inodes[inode := inodes[inode].(size := 0)];
    }

    method FindFree() returns (db: nat)
      requires 0 < |bitmap|
      ensures db == FindFreeDatablock(bitmap, 1)
    {
      db := 1;
      while db < |bitmap|
        invariant 1 <= db <= |bitmap| && FindFreeDatablock(bitmap, db) == FindFreeDatablock(bitmap, 1)
      {
        if !bitmap[db] { return; }
        db := db + 1;
      }
      return NO_BLOCK;
    }

    /** Puts a block number into a slot of a file. */
    method SetSlot(inode: nat, slot: nat, b: nat)
      requires inode < |inodes| && slot < |inodes[inode].slots|
      modifies this`inodes
      ensures inodes == old(inodes[inode := inodes[inode].(slots := inodes[inode].slots[slot := b])])
    {
      inodes := inodes[inode := inodes[inode].(slots := inodes[inode].slots[slot := b])];
    }

    /** The first block of such a write, and the block for the next slot. */
    method WriteFirst(inode: nat, slot: nat, within: nat, bytes: seq<Byte>) returns (free: nat, ghost first: nat)
      requires inode < |inodes| && |inodes[inode].slots| == 1023 && slot + 1 < 1023
      requires within < 4096 < within + |bytes| && inodes[inode].slots[slot] < |data|
      requires 0 < |bitmap| == |data| <= NO_BLOCK && FindFreeDatablock(bitmap, 1) != NO_BLOCK
      modifies this`inodes, this`data
      ensures free == FindFreeDatablock(bitmap, 1)
      ensures first == if old(inodes[inode].slots)[slot] == 0 then free else old(inodes[inode].slots)[slot]
      ensures inodes == old(inodes)[inode :=
        old(inodes[inode]).(slots := Poured(old(inodes[inode].slots), slot, slot + 1, first, free))]
      ensures data == old(data)[first := Overlay(old(data)[first], within, bytes[..4096 - within])]
    {
      ghost var was := inodes[inode].slots;
      free := FindFree();
      if inodes[inode].slots[slot] == 0 {
        SetSlot(inode, slot, free);
      }
      first := inodes[inode].slots[slot];
      var b := inodes[inode].slots[slot];
      data := data[b := Overlay(data[b], within, bytes[..4096 - within])];
      SetSlot(inode, slot + 1, free);
      assert inodes[inode].slots == Poured(was, slot, slot + 1, first, free);
    }

    /** The branch of write_data that spans blocks; the size has already been set. */
    method WriteAcross(inode: nat, slot: nat, within: nat, bytes: seq<Byte>)
      requires inode < |inodes| && |inodes[inode].slots| == 1023
      requires within < 4096 < within + |bytes| && 4096 * slot + within + |bytes| < 1023 * 4096
      requires inodes[inode].slots[slot] < |data|
      requires 0 < |bitmap| == |data| <= NO_BLOCK && FindFreeDatablock(bitmap, 1) != NO_BLOCK
      modifies this`inodes, this`data
      ensures var (free, remain, was) := (FindFreeDatablock(bitmap, 1), 4096 - within, old(inodes[inode].slots));
        var first := if was[slot] == 0 then free else was[slot];
        var last := slot + 1 + (|bytes| - remain) / 4096;
        && inodes == old(inodes)[inode := old(inodes[inode]).(slots := Poured(was, slot, last, first, free))]
        && data == PourInto(old(data)[first := Overlay(old(data)[first], within, bytes[..remain])],
                            free, bytes[remain..])
    {
      ghost var was := inodes;
      var free;
      ghost var first;
      free, first := WriteFirst(inode, slot, within, bytes);
      var pos, at := 4096 - within, slot + 1;
      ghost var poured := PourInto(data, free, bytes[pos..]);
      while |bytes| - pos >= 4096
        invariant 0 <= pos <= |bytes| && 4096 * at == 4096 * slot + within + pos && at < 1023
        invariant |data| == |bitmap| && PourInto(data, free, bytes[pos..]) == poured
        invariant inodes == was[inode := was[inode].(slots := Poured(was[inode].slots, slot, at, first, free))]
        decreases |bytes| - pos
      {
        var b := inodes[inode].slots[at];
        assert bytes[pos..][4096..] == bytes[pos + 4096..] && bytes[pos..][..4096] == bytes[pos..pos + 4096];
        data := data[b := bytes[pos..pos + 4096]];
        at, pos := at + 1, pos + 4096;
        SetSlot(inode, at, free);
        assert inodes[inode].slots == Poured(was[inode].slots, slot, at, first, free);
      }
      data := data[inodes[inode].slots[at] := Overlay(data[inodes[inode].slots[at]], 0, bytes[pos..])];
    }

    /** memcpy into a block; the one of number 0xFFFFFFFF is the last inode. */
    method CopyTo(b: nat, at: nat, bytes: seq<Byte>)
      requires at + |bytes| <= 4096 && |data| <= NO_BLOCK
      requires b < |data| || (b == NO_BLOCK && |inodes| > 0 && |inodes[|inodes| - 1].slots| == 1023)
      modifies this`inodes, this`data
      ensures b < old(|data|) ==> inodes == old(inodes) && data == old(data)[b := Overlay(old(data)[b], at, bytes)]
      ensures b >= old(|data|) ==> data == old(data)
      ensures b >= old(|data|) ==> var was := old(inodes);
        inodes == was[|was| - 1 := Decoded(Overlay(Encoded(was[|was| - 1]), at, bytes))]
    {
      if b < |data| {
        data := data[b := Overlay(data[b], at, bytes)];
      } else {
        var last := |inodes| - 1;
        inodes := inodes[last := Decoded(Overlay(Encoded(inodes[last]), at, bytes))];
      }
    }

    /** The bytes that go to the first block of such a write. */
    method PourHead(inode: nat, slot: nat, within: nat, bytes: seq<Byte>) returns (ghost first: nat, ghost start: Block)
      requires inode < |inodes| - 1 && |inodes[inode].slots| == 1023 && slot < 1023 && Words(inodes[|inodes| - 1])
      requires within < 4096 < within + |bytes| && inodes[inode].slots[slot] < |data| <= NO_BLOCK
      requires 0 < |bitmap| && FindFreeDatablock(bitmap, 1) == NO_BLOCK
      modifies this`inodes, this`data
      ensures var (was, b) := (old(inodes), old(inodes[inode].slots)[slot]);
        && first == (if b == 0 then NO_BLOCK else b)
        && start == FirstPoured(was, b, within, bytes) && inodes == FullInodes(was, inode, slot, slot, first, start)
        && data == if b == 0 then old(data) else old(data)[b := Overlay(old(data)[b], within, bytes[..4096 - within])]
    {
      ghost var was, b := inodes, inodes[inode].slots[slot];
      start := FirstPoured(was, b, within, bytes);
      DecodeEncoded(was[|was| - 1]);
      if inodes[inode].slots[slot] == 0 {
        var free := FindFree();
        SetSlot(inode, slot, free);
      }
      first := inodes[inode].slots[slot];
      assert inodes[inode].slots == Poured(was[inode].slots, slot, slot, first, NO_BLOCK);
      CopyTo(inodes[inode].slots[slot], within, bytes[..4096 - within]);
    }

    /** Copies up to a block of bytes to the block of number 0xFFFFFFFF. */
    method PourFull(inode: nat, slot: nat, at: nat, ghost first: nat, bytes: seq<Byte>,
                    ghost was: seq<Inode>, ghost now: Block)
      requires inode < |was| - 1 && |was[inode].slots| == 1023 && slot < at < 1023
      requires inodes == FullInodes(was, inode, slot, at, first, now)
      requires |bytes| <= 4096 && |data| <= NO_BLOCK
      modifies this`inodes, this`data
      ensures data == old(data) && inodes == FullInodes(was, inode, slot, at, first, Overlay(now, 0, bytes))
    {
      EncodeDecoded(now);
      CopyTo(inodes[inode].slots[at], 0, bytes);
    }

    /** One round of the loop: a whole block, and the number for the next slot. */
    method PourRound(inode: nat, slot: nat, at: nat, ghost first: nat, bytes: seq<Byte>, pos: nat,
                     ghost was: seq<Inode>, ghost now: Block) returns (ghost next: Block)
      requires inode < |was| - 1 && |was[inode].slots| == 1023 && slot < at && at + 1 < 1023
      requires inodes == FullInodes(was, inode, slot, at, first, now) && pos + 4096 <= |bytes|
      requires |data| <= NO_BLOCK && 0 < |bitmap| && FindFreeDatablock(bitmap, 1) == NO_BLOCK
      modifies this`inodes, this`data
      ensures data == old(data) && inodes == FullInodes(was, inode, slot, at + 1, first, next)
      ensures Shared(next, bytes[pos + 4096..]) == Shared(now, bytes[pos..])
    {
      assert bytes[pos..][4096..] == bytes[pos + 4096..] && bytes[pos..][..4096] == bytes[pos..pos + 4096];
      PourFull(inode, slot, at, first, bytes[pos..pos + 4096], was, now);
      next := bytes[pos..pos + 4096];
      assert Overlay(now, 0, next) == next;
      NextFull(inode, slot, at + 1, first, was, next);
    }

    /** The branch of write_data that spans blocks when none is free. */
    method WriteAcrossFull(inode: nat, slot: nat, within: nat, bytes: seq<Byte>)
      requires inode < |inodes| - 1 && |inodes[inode].slots| == 1023 && Words(inodes[|inodes| - 1])
      requires within < 4096 < within + |bytes| && 4096 * slot + within + |bytes| < 1023 * 4096
      requires inodes[inode].slots[slot] < |data|
      requires 0 < |bitmap| == |data| <= NO_BLOCK && FindFreeDatablock(bitmap, 1) == NO_BLOCK
      modifies this`inodes, this`data
      ensures Now() == FullImage(old(Now()), inode, slot, within, bytes)
    {
      ghost var image := Now();
      var rest := bytes[4096 - within..];
      ghost var first, start := PourHead(inode, slot, within, bytes);
      NextFull(inode, slot, slot + 1, first, image.inodes, start);
      PourAll(inode, slot, first, rest, image.inodes, start);
      FullImageIs(image, inode, slot, within, bytes, first, Now());
    }

    /** The loop over the rest of the bytes. */
    method PourAll(inode: nat, slot: nat, ghost first: nat, bytes: seq<Byte>, ghost was: seq<Inode>, ghost start: Block)
      requires inode < |was| - 1 && |was[inode].slots| == 1023 && 4096 * (slot + 1) + |bytes| < 1023 * 4096
      requires inodes == FullInodes(was, inode, slot, slot + 1, first, start)
      requires |data| <= NO_BLOCK && 0 < |bitmap| && FindFreeDatablock(bitmap, 1) == NO_BLOCK
      modifies this`inodes, this`data
      ensures data == old(data)
      ensures inodes == FullInodes(was, inode, slot, slot + 1 + |bytes| / 4096, first, Shared(start, bytes))
    {
      var pos, at := 0, slot + 1;
      ghost var now, end := start, Shared(start, bytes);
      assert bytes[0..] == bytes;
      while |bytes| - pos >= 4096
        invariant 0 <= pos <= |bytes| && pos == 4096 * (at - slot - 1) && at < 1023
        invariant data == old(data) && Shared(now, bytes[pos..]) == end
        invariant inodes == FullInodes(was, inode, slot, at, first, now)
        decreases |bytes| - pos
      {
        now := PourRound(inode, slot, at, first, bytes, pos, was, now);
        at, pos := at + 1, pos + 4096;
      }
      var tail := bytes[pos..];
      assert |tail| < 4096 && end == Overlay(now, 0, tail) && at == slot + 1 + |bytes| / 4096;
      PourFull(inode, slot, at, first, tail, was, now);
    }

    /** The number for the next slot. */
    method NextFull(inode: nat, slot: nat, at: nat, ghost first: nat, ghost was: seq<Inode>, ghost now: Block)
      requires inode < |was| - 1 && |was[inode].slots| == 1023 && slot < at < 1023
      requires inodes == FullInodes(was, inode, slot, at - 1, first, now)
      requires 0 < |bitmap| && FindFreeDatablock(bitmap, 1) == NO_BLOCK
      modifies this`inodes
      ensures inodes == FullInodes(was, inode, slot, at, first, now)
    {
      var free := FindFree();
      SetSlot(inode, at, free);
      assert inodes[inode].slots == Poured(was[inode].slots, slot, at, first, NO_BLOCK);
    }

    /** A write behind the end makes the file longer. */
    method Grow(inode: nat, end: nat)
      requires inode < |inodes|
      modifies this`inodes
      ensures Now() == Grown(old(Now()), inode, end)
    {
      if end > inodes[inode].size {
        inodes := inodes[inode := inodes[inode].(size := end)];
      }
    }

    /** The branches of write_data, after the size has been set. */
    method WriteBlocks(inode: nat, offset: nat, bytes: seq<Byte>, ghost was: Image)
      requires !Refused(was, inode, offset, bytes)
      requires Reaches(was, inode, offset, bytes) || SpansFull(was, inode, offset, bytes)
      requires Now() == Grown(was, inode, offset + |bytes|)
      modifies this`inodes, this`data
      ensures Reaches(was, inode, offset, bytes) ==> Now() == WriteRaw(was, inode, offset, bytes)
      ensures !Reaches(was, inode, offset, bytes) ==> Now() == WriteFull(was, inode, offset, bytes)
    {
      var slot, within := offset / 4096, offset % 4096;
      if 4096 - within >= |bytes| {
        var b := inodes[inode].slots[slot];
        data := data[b := Overlay(data[b], within, bytes)];
      } else {
        var free := FindFree();
        if free != NO_BLOCK {
          WriteAcross(inode, slot, within, bytes);
        } else {
          WriteAcrossFull(inode, slot, within, bytes);
        }
      }
    }

    /** write_data, as written. */
    method WriteData(inode: nat, offset: nat, buf: array?<Byte>, len: nat) returns (r: int)
      requires buf != null ==> len <= buf.Length
      requires buf != null && !Refused(Now(), inode, offset, buf[..len]) ==>
        Reaches(Now(), inode, offset, buf[..len]) || SpansFull(Now(), inode, offset, buf[..len])
      modifies this`inodes, this`data
      ensures buf == null || len == 0 || inode >= |inodes| ==> r == -1 && Now() == old(Now())
      ensures buf != null && len > 0 && inode < old(|inodes|) ==>
        if offset > old(inodes[inode].size) then r == 0 && Now() == old(Now()) else r == len
      ensures buf != null && !Refused(old(Now()), inode, offset, buf[..len]) ==>
        && r == len
        && Now() == if Reaches(old(Now()), inode, offset, buf[..len]) then WriteRaw(old(Now()), inode, offset, buf[..len])
                    else WriteFull(old(Now()), inode, offset, buf[..len])
    {
      if buf == null || len == 0 || inode >= |inodes| { return -1; }
      if offset > inodes[inode].size { return 0; }
      ghost var was := Now();
      Grow(inode, offset + len);
      WriteBlocks(inode, offset, buf[..len], was);
      return len;
    }
  }
}
