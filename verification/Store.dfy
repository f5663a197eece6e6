/**
 The file system as its design intends it, where the code of student-distrib/filesys.c and
 syscall.c departs from it: an allocated block is marked, only an empty slot is allocated,
 the size grows with the bytes that are there, inodes come from their own bitmap, and delete
 gives back the blocks the file had. The copying itself is the code's own, one block at a time.
 */
module Store {
  import opened Bytes
  import opened Sequences
  import opened Volume
  import D = Directory

  // ---------------------------------------------------------------------------------
  // One block more, one block less
  // ---------------------------------------------------------------------------------

  /** Block b becomes the file's next slot, and is marked. */
  function Allocate(image: Image, n: nat, slot: nat, b: nat): Image
    requires n < |image.inodes| && slot < |image.inodes[n].slots| && b < |image.bitmap|
  {
    var file := image.inodes[n];
    image.(inodes := image.inodes[n := file.(slots := file.slots[slot := b])], bitmap := image.bitmap[b := true])
  }

  predicate NextSlot(file: Inode, slot: nat)
    requires |file.slots| == 1023
  {
    slot < 1023 && file.slots[slot] == 0 && (slot == 0 || file.slots[slot - 1] != 0)
  }

  /** A free block given to a file changes who owns what, but no file's bytes. */
  lemma AllocateKeeps(image: Image, names: set<nat>, n: nat, slot: nat, b: nat)
    requires Owned(image, names) && n in names && NextSlot(image.inodes[n], slot)
    requires 0 < b < |image.bitmap| && !image.bitmap[b]
    ensures Owned(Allocate(image, n, slot, b), names)
    ensures forall m :: m in names ==> Allocate(image, n, slot, b).Content(m) == image.Content(m)
  {
    var r := Allocate(image, n, slot, b);
    AllocatePacked(image.inodes[n], |image.data|, slot, b);
    assert Packed(image.inodes[n], |image.data|);
    AllocateUnshared(image, names, n, slot, b);
    forall c | 0 < c < |r.data| ensures r.bitmap[c] <==> Taken(r, names, c) {
      AllocateTaken(image, names, n, slot, b, c);
    }
    forall m | m in names ensures r.Content(m) == image.Content(m) {
      AllocateContent(image, names, n, slot, b, m);
    }
  }

  lemma AllocatePacked(file: Inode, blocks: nat, slot: nat, b: nat)
    requires Packed(file, blocks) && NextSlot(file, slot) && 0 < b < blocks
    ensures Packed(file.(slots := file.slots[slot := b]), blocks)
    ensures slot >= Inode.Span(file.size)
  {}

  lemma AllocateContent(image: Image, names: set<nat>, n: nat, slot: nat, b: nat, m: nat)
    requires Owned(image, names) && n in names && m in names && NextSlot(image.inodes[n], slot)
    requires 0 < b < |image.bitmap|
    ensures Allocate(image, n, slot, b).inodes[m].Sound(|image.data|)
    ensures Allocate(image, n, slot, b).Content(m) == image.Content(m)
  {
    AllocatePacked(image.inodes[n], |image.data|, slot, b);
    assert Packed(image.inodes[m], |image.data|);
    var r := Allocate(image, n, slot, b);
    forall i | 0 <= i < image.inodes[m].size
      ensures r.data[r.inodes[m].slots[i / 4096]][i % 4096] == image.Content(m)[i]
    {
      SlotInUse(image.inodes[m], |image.data|, i);
    }
    ContentIs(r, m, image.Content(m));
  }

  lemma AllocateUnshared(image: Image, names: set<nat>, n: nat, slot: nat, b: nat)
    requires Owned(image, names) && n in names && NextSlot(image.inodes[n], slot)
    requires 0 < b < |image.bitmap| && !image.bitmap[b]
    ensures Unshared(Allocate(image, n, slot, b), names)
  {
    assert !Taken(image, names, b);
    var r := Allocate(image, n, slot, b);
    forall m, j | m in names && 0 <= j < 1023 && (m != n || j != slot)
      ensures r.Slot(m, j) == image.Slot(m, j) != b
    {}
  }

  lemma AllocateTaken(image: Image, names: set<nat>, n: nat, slot: nat, b: nat, c: nat)
    requires image.Sound() && n in names && slot < 1023 && b < |image.bitmap| && 0 < c
    requires forall m :: m in names ==> m < |image.inodes|
    requires image.inodes[n].slots[slot] == 0 && Allocate(image, n, slot, b).Sound()
    ensures Taken(Allocate(image, n, slot, b), names, c) <==> Taken(image, names, c) || c == b
  {
    var r := Allocate(image, n, slot, b);
    assert r.Slot(n, slot) == b;
    if Taken(image, names, c) {
      var m, j :| m in names && 0 <= j < 1023 && image.Slot(m, j) == c;
      assert r.Slot(m, j) == c;
    }
    if Taken(r, names, c) && c != b {
      var m, j :| m in names && 0 <= j < 1023 && r.Slot(m, j) == c;
      assert image.Slot(m, j) == c;
    }
  }

  // ---------------------------------------------------------------------------------
  // Writing block by block
  // ---------------------------------------------------------------------------------

  lemma SpliceSplice(content: seq<Byte>, offset: nat, a: seq<Byte>, b: seq<Byte>)
    requires offset <= |content|
    ensures offset + |a| <= |Splice(content, offset, a)|
    ensures Splice(Splice(content, offset, a), offset + |a|, b) == Splice(content, offset, a + b)
  {
    var (once, twice) := (Splice(content, offset, a), Splice(Splice(content, offset, a), offset + |a|, b));
    var whole := Splice(content, offset, a + b);
    forall i | 0 <= i < |whole| ensures twice[i] == whole[i] {
      SpliceAt(content, offset, a + b, i);
      SpliceAt(once, offset + |a|, b, i);
      if !(offset + |a| <= i < offset + |a| + |b|) { SpliceAt(content, offset, a, i); }
    }
  }

  lemma SpliceReaches(content: seq<Byte>, offset: nat, bytes: seq<Byte>)
    requires offset <= |content|
    ensures offset + |bytes| <= |Splice(content, offset, bytes)|
  {}

  lemma SpliceMore(content: seq<Byte>, offset: nat, bytes: seq<Byte>, pos: nat, to: nat)
    requires offset <= |content| && pos <= to <= |bytes|
    ensures offset + pos <= |Splice(content, offset, bytes[..pos])|
    ensures Splice(Splice(content, offset, bytes[..pos]), offset + pos, bytes[pos..to])
      == Splice(content, offset, bytes[..to])
  {
    SpliceSplice(content, offset, bytes[..pos], bytes[pos..to]);
    assert bytes[..pos] + bytes[pos..to] == bytes[..to];
  }

  /** The files, by the contents of their inodes, after one of them was written or none was. */
  ghost predicate Wrote(before: Image, after: Image, names: set<nat>, n: nat, content: seq<Byte>) {
    && Owned(after, names) && n in names && before.Sound()
    && |after.inodes| == |before.inodes| && |after.data| == |before.data|
    && after.Content(n) == content
    && forall m :: m in names && m != n ==> after.Content(m) == before.Content(m)
  }

  lemma WroteTwice(a: Image, b: Image, c: Image, names: set<nat>, n: nat, first: seq<Byte>, second: seq<Byte>)
    requires Wrote(a, b, names, n, first) && Wrote(b, c, names, n, second)
    ensures Wrote(a, c, names, n, second)
  {}

  lemma WroteMore(a: Image, b: Image, c: Image, names: set<nat>, n: nat,
                  content: seq<Byte>, offset: nat, bytes: seq<Byte>, pos: nat, to: nat)
    requires offset <= |content| && pos <= to <= |bytes|
    requires Wrote(a, b, names, n, Splice(content, offset, bytes[..pos])) && offset + pos <= |b.Content(n)|
    requires Wrote(b, c, names, n, Splice(b.Content(n), offset + pos, bytes[pos..to]))
    ensures Wrote(a, c, names, n, Splice(content, offset, bytes[..to]))
  {
    SpliceMore(content, offset, bytes, pos, to);
    WroteTwice(a, b, c, names, n, b.Content(n), Splice(content, offset, bytes[..to]));
  }

  /** Every name leads to an inode whose bytes can be read. */
  ghost predicate Readable(image: Image, dir: map<D.Name, nat>) {
    image.Sound() && forall q :: q in dir ==> dir[q] < |image.inodes|
  }

  ghost function FilesOf(image: Image, dir: map<D.Name, nat>): map<D.Name, seq<Byte>>
    requires Readable(image, dir)
  {
    map q | q in dir :: image.Content(dir[q])
  }

  // ---------------------------------------------------------------------------------
  // What can be mounted
  // ---------------------------------------------------------------------------------

  /** A regular file shares its inode with no other entry of the table. */
  ghost predicate SeparateInodes(dentries: seq<D.Dentry>) {
    forall i, j | 0 <= i < |dentries| && 0 <= j < |dentries| && i != j
      && D.IsFile(dentries[i]) && D.IsNamed(dentries[j]) :: dentries[i].inode != dentries[j].inode
  }

  ghost predicate Mountable(inodes: seq<Inode>, data: seq<Block>, dentries: seq<D.Dentry>) {
    var (image, names) := (Image(inodes, data, []), Named(dentries));
    && image.Sound() && |data| > 0 && |dentries| <= 63 && D.Distinct(dentries) && SeparateInodes(dentries)
    && (forall n :: n in names ==> n < |inodes| && Packed(inodes[n], |data|))
    && Unshared(image, names)
  }

  lemma NothingMarked(image: Image)
    requires image.Sound()
    ensures forall b :: !Taken(image, {}, b)
  {}

  lemma UnsharedToo(a: Image, b: Image, names: set<nat>)
    requires a.inodes == b.inodes && forall n :: n in names ==> n < |a.inodes| && |a.inodes[n].slots| == 1023
    requires Unshared(a, names)
    ensures Unshared(b, names)
  {
    assert forall n, k :: n in names && 0 <= k < 1023 ==> b.Slot(n, k) == a.Slot(n, k);
  }

  /** The name does not fit its field, is in use, or finds the table full. */
  predicate Unfit(table: seq<D.Dentry>, q: D.Name) {
    q == [] || |q| > 32 || D.Lookup(table, q) != -1 || |table| == 63
  }

  /** The inode of a file, by its name. */
  lemma FileNamed(table: seq<D.Dentry>, q: D.Name)
    requires D.Distinct(table) && q in D.DirOf(table)
    ensures q != [] && D.Lookup(table, q) >= 0
    ensures D.DirOf(table)[q] == table[D.Lookup(table, q)].inode && D.DirOf(table)[q] in Named(table)
  {
    var k := D.FileOfDir(table, q);
    D.LookupUnique(table, q, k);
    assert D.IsNamed(table[k]);
  }

  lemma NoEmptyName(table: seq<D.Dentry>)
    requires D.Distinct(table)
    ensures [] !in D.DirOf(table)
  {
    if [] in D.DirOf(table) { FileNamed(table, []); }
  }

  /** Different files have different inodes. */
  lemma FilesApart(table: seq<D.Dentry>, p: D.Name, q: D.Name)
    requires D.Distinct(table) && SeparateInodes(table) && p in D.DirOf(table) && q in D.DirOf(table) && p != q
    ensures D.DirOf(table)[p] != D.DirOf(table)[q]
  {
    var j := D.FileOfDir(table, p);
    var k := D.FileOfDir(table, q);
    assert D.IsFile(table[j]) && D.IsNamed(table[k]);
  }

  lemma TableReadable(image: Image, table: seq<D.Dentry>)
    requires Owned(image, Named(table)) && D.Distinct(table)
    ensures Readable(image, D.DirOf(table))
  {
    forall q | q in D.DirOf(table) ensures D.DirOf(table)[q] < |image.inodes| {
      FileNamed(table, q);
    }
  }

  lemma AppendedTable(table: seq<D.Dentry>, q: D.Name, n: nat)
    requires D.Distinct(table) && SeparateInodes(table) && D.Lookup(table, q) == -1
    requires q != [] && |q| <= 32 && n !in Named(table)
    ensures var more := table + [D.Dentry(D.Padded(q), D.REGULAR, n)];
      && D.Distinct(more) && SeparateInodes(more) && Named(more) == Named(table) + {n}
      && q !in D.DirOf(table) && D.DirOf(more) == D.DirOf(table)[q := n]
  {
    var more := table + [D.Dentry(D.Padded(q), D.REGULAR, n)];
    D.CreateKeepsDistinct(table, q, n);
    D.CreateInDir(table, q, n);
    D.LookupIsDir(table, q);
    assert D.Padded(q)[0] == q[0] != NUL;
    NamedMore(more, |table|);
    assert more[..|table|] == table && more[..|table| + 1] == more;
    forall i | 0 <= i < |table| && D.IsNamed(table[i]) ensures table[i].inode != n {
      assert table[i].inode in Named(table);
    }
  }

  lemma WithoutAt(table: seq<D.Dentry>, i: nat, k: nat)
    requires i < |table| && k < |Without(table, i)|
    ensures var j := if k < i then k else k + 1;
      Without(table, i)[k] == table[j] && j != i && j < |table|
  {}

  lemma RemovedSeparate(table: seq<D.Dentry>, i: nat)
    requires SeparateInodes(table) && i < |table|
    ensures SeparateInodes(Without(table, i))
  {
    var rest := Without(table, i);
    forall j, k | 0 <= j < |rest| && 0 <= k < |rest| && j != k && D.IsFile(rest[j]) && D.IsNamed(rest[k])
      ensures rest[j].inode != rest[k].inode
    {
      WithoutAt(table, i, j);
      WithoutAt(table, i, k);
    }
  }

  lemma RemovedNames(table: seq<D.Dentry>, i: nat)
    requires SeparateInodes(table) && i < |table| && D.IsFile(table[i])
    ensures Named(Without(table, i)) == Named(table) - {table[i].inode}
  {
    var rest := Without(table, i);
    forall n | n in Named(table) && n != table[i].inode ensures n in Named(rest) {
      var k :| 0 <= k < |table| && D.IsNamed(table[k]) && table[k].inode == n;
      WithoutAt(table, i, if k < i then k else k - 1);
    }
    forall n | n in Named(rest) ensures n in Named(table) && n != table[i].inode {
      var k :| 0 <= k < |rest| && D.IsNamed(rest[k]) && rest[k].inode == n;
      WithoutAt(table, i, k);
      assert D.IsNamed(table[if k < i then k else k + 1]);
    }
  }

  lemma RemovedTable(table: seq<D.Dentry>, i: nat)
    requires D.Distinct(table) && SeparateInodes(table) && i < |table| && D.IsFile(table[i])
    ensures var rest := Without(table, i);
      D.Distinct(rest) && SeparateInodes(rest) && Named(rest) == Named(table) - {table[i].inode}
  {
    D.WithoutDistinct(table, i);
    RemovedSeparate(table, i);
    RemovedNames(table, i);
  }

  class Disk {
    var inodes: seq<Inode>
    var data: seq<Block>
    var bitmap: seq<bool>
    var inodeBitmap: seq<bool>
    /** boot_block->dentries, up to dentry_count. */
    var table: seq<D.Dentry>

    ghost function Now(): Image
      reads this
    {
      Image(inodes, data, bitmap)
    }

    ghost predicate Valid()
      reads this
    {
      && Owned(Now(), Named(table)) && D.Distinct(table) && SeparateInodes(table) && |table| <= 63
      && |inodeBitmap| == |inodes| && forall n :: 0 <= n < |inodes| ==> (inodeBitmap[n] <==> n in Named(table))
    }

    /** What the disk is for: a map from names to bytes. */
    ghost function Files(): map<D.Name, seq<Byte>>
      requires Valid()
      reads this
    {
      TableReadable(Now(), table);
      FilesOf(Now(), D.DirOf(table))
    }

    /** file_system_init, which looks at every slot of a file. */
    constructor Mount(inodes: seq<Inode>, data: seq<Block>, dentries: seq<D.Dentry>)
      requires Mountable(inodes, data, dentries)
      ensures Valid() && this.inodes == inodes && this.data == data && table == dentries
    {
      this.inodes, this.data, table := inodes, data, dentries;
      bitmap, inodeBitmap := seq(|data|, _ => false), seq(|inodes|, _ => false);
      new;
      NothingMarked(Now());
      MarkAll();
      UnsharedToo(Image(inodes, data, []), Now(), Named(dentries));
    }

    /** The loop over the table. */
    method MarkAll()
      requires |bitmap| == |data| && |inodeBitmap| == |inodes|
      requires Now().Sound() && forall n :: n in Named(table) ==> n < |inodes| && Packed(inodes[n], |data|)
      requires forall n :: 0 <= n < |inodes| ==> !inodeBitmap[n]
      requires forall b :: 0 < b < |data| ==> (bitmap[b] <==> Taken(Now(), {}, b))
      modifies this`bitmap, this`inodeBitmap
      ensures |bitmap| == |data| && |inodeBitmap| == |inodes|
      ensures forall n :: 0 <= n < |inodes| ==> (inodeBitmap[n] <==> n in Named(table))
      ensures forall b :: 0 < b < |data| ==> (bitmap[b] <==> Taken(Now(), Named(table), b))
    {
      ghost var names: set<nat> := {};
      var i := 0;
      while i < |table|
        invariant 0 <= i <= |table| && names == Named(table[..i]) <= Named(table)
        invariant |bitmap| == |data| && |inodeBitmap| == |inodes|
        invariant forall n :: 0 <= n < |inodes| ==> (inodeBitmap[n] <==> n in names)
        invariant forall b :: 0 < b < |data| ==> (bitmap[b] <==> Taken(Now(), names, b))
      {
        NamedMore(table, i);
        if D.IsNamed(table[i]) {
          var n := table[i].inode;
          inodeBitmap := inodeBitmap[n := true];
          MarkFile(n, names);
          names := names + {n};
        }
        i := i + 1;
      }
      assert table[..i] == table;
    }

    /** Sets the bits of all blocks of a file. */
    method MarkFile(n: nat, ghost names: set<nat>)
      requires Now().Sound() && n < |inodes| && Packed(inodes[n], |data|) && |bitmap| == |data|
      requires forall m :: m in names ==> m < |inodes|
      requires forall b :: 0 < b < |data| ==> (bitmap[b] <==> Taken(Now(), names, b))
      modifies this`bitmap
      ensures |bitmap| == |data|
      ensures forall b :: 0 < b < |data| ==> (bitmap[b] <==> Taken(Now(), names + {n}, b))
    {
      ghost var was, before := bitmap, Now();
      var slots, j := inodes[n].slots, 0;
      while j < 1023 && slots[j] != 0
        invariant 0 <= j <= 1023 && |bitmap| == |data|
        invariant forall b :: 0 < b < |data| ==> (bitmap[b] <==> was[b] || b in slots[..j])
      {
        bitmap := bitmap[slots[j] := true];
        assert slots[..j + 1] == slots[..j] + [slots[j]];
        j := j + 1;
      }
      forall b | 0 < b < |data| ensures bitmap[b] <==> Taken(Now(), names + {n}, b) {
        MarkedMore(before, names, 1023, n, j, b);
        SameMarks(before, Now(), names + {n}, 1023, b);
      }
    }

    /** find_free_datablock, which marks the block it finds and answers 0 when there is none. */
    method FindFreeDatablock() returns (db: nat)
      requires |bitmap| > 0
      ensures 0 <= db < |bitmap| && (db > 0 ==> !bitmap[db])
      ensures db == 0 ==> forall b :: 0 < b < |bitmap| ==> bitmap[b]
    {
      db := 1;
      while db < |bitmap|
        invariant 1 <= db <= |bitmap| && forall b :: 0 < b < db ==> bitmap[b]
      {
        if !bitmap[db] { return; }
        db := db + 1;
      }
      return 0;
    }

    /** Makes sure that the file has a block in the slot, which is its last one or the next. */
    method Provide(n: nat, slot: nat, ghost names: set<nat>) returns (ok: bool)
      requires Owned(Now(), names) && n in names && slot < 1023
      requires inodes[n].slots[slot] == 0 ==> NextSlot(inodes[n], slot)
      modifies this`inodes, this`bitmap
      ensures Wrote(old(Now()), Now(), names, n, old(Now()).Content(n))
      ensures inodes[n].size == old(inodes[n].size) && (ok ==> inodes[n].slots[slot] != 0)
    {
      if inodes[n].slots[slot] != 0 { return true; }
      var db := FindFreeDatablock();
      if db == 0 { return false; }
      AllocateKeeps(Now(), names, n, slot, db);
      ghost var want := Allocate(Now(), n, slot, db);
      inodes := inodes[n := inodes[n].(slots := inodes[n].slots[slot := db])];
      bitmap := bitmap[db := true];
      assert Now() == want;
      return true;
    }

    /** Copies bytes into a block that the file has. */
    method CopyIn(n: nat, offset: nat, bytes: seq<Byte>, ghost names: set<nat>)
      requires Owned(Now(), names) && n in names && !Refused(Now(), n, offset, bytes)
      requires Reaches(Now(), n, offset, bytes) && WithinBlock(Now(), n, offset, bytes)
      modifies this`inodes, this`data
      ensures Wrote(old(Now()), Now(), names, n, Splice(old(Now()).Content(n), offset, bytes))
    {
      ghost var r := WriteRaw(Now(), n, offset, bytes);
      WithinBlockWrote(Now(), names, n, offset, bytes);
      var b := inodes[n].slots[offset / 4096];
      data := data[b := Overlay(data[b], offset % 4096, bytes)];
      if offset + |bytes| > inodes[n].size {
        inodes := inodes[n := inodes[n].(size := offset + |bytes|)];
      }
      assert Now() == r;
    }

    /** Copies bytes that stay in one block, after allocating the block if the slot is empty. */
    method WriteChunk(n: nat, offset: nat, bytes: seq<Byte>, ghost names: set<nat>) returns (ok: bool)
      requires Owned(Now(), names) && n in names && offset <= inodes[n].size
      requires bytes != [] && offset % 4096 + |bytes| <= 4096
      modifies this`inodes, this`data, this`bitmap
      ensures Wrote(old(Now()), Now(), names, n,
        if ok then Splice(old(Now()).Content(n), offset, bytes) else old(Now()).Content(n))
    {
      var slot := offset / 4096;
      if slot >= 1023 { return false; }
      SlotBefore(inodes[n], |data|, offset);
      ok := Provide(n, slot, names);
      if ok {
        SlotBefore(inodes[n], |data|, offset);
        CopyIn(n, offset, bytes, names);
      }
    }

    /** Writes the piece of bytes from pos on that fits the block there. */
    method WritePiece(n: nat, offset: nat, bytes: seq<Byte>, pos: nat, ghost names: set<nat>,
                      ghost was: Image, ghost content: seq<Byte>)
      returns (ok: bool, to: nat)
      requires offset <= |content| && pos < |bytes|
      requires Wrote(was, Now(), names, n, Splice(content, offset, bytes[..pos]))
      modifies this`inodes, this`data, this`bitmap
      ensures pos < to <= |bytes|
      ensures Wrote(was, Now(), names, n, Splice(content, offset, bytes[..if ok then to else pos]))
    {
      ghost var mid := Now();
      to := pos + Min(4096 - (offset + pos) % 4096, |bytes| - pos);
      SpliceReaches(content, offset, bytes[..pos]);
      ok := WriteChunk(n, offset + pos, bytes[pos..to], names);
      if ok {
        WroteMore(was, mid, Now(), names, n, content, offset, bytes, pos, to);
      } else {
        WroteTwice(was, mid, Now(), names, n, mid.Content(n), mid.Content(n));
      }
    }

    /** The loop of write_data over the blocks of the file. */
    method WriteInode(n: nat, offset: nat, bytes: seq<Byte>, ghost names: set<nat>) returns (ok: bool, ghost done: nat)
      requires Owned(Now(), names) && n in names && offset <= inodes[n].size
      modifies this`inodes, this`data, this`bitmap
      ensures done <= |bytes| && (ok <==> done == |bytes|)
      ensures Wrote(old(Now()), Now(), names, n, Splice(old(Now()).Content(n), offset, bytes[..done]))
    {
      ghost var was, content := Now(), Now().Content(n);
      var pos := 0;
      assert Splice(content, offset, bytes[..0]) == content;
      while pos < |bytes|
        invariant 0 <= pos <= |bytes|
        invariant Wrote(was, Now(), names, n, Splice(content, offset, bytes[..pos]))
      {
        var to;
        ok, to := WritePiece(n, offset, bytes, pos, names, was, content);
        if !ok { return false, pos; }
        pos := to;
      }
      ok, done := true, pos;
    }

    /**
     write_data. On success the file is spliced; when the disk fills up, what was copied so
     far stays. No other file changes.
     */
    method WriteData(q: D.Name, offset: nat, bytes: seq<Byte>) returns (r: int, ghost done: nat)
      requires Valid() && q in D.DirOf(table)
      modifies this`inodes, this`data, this`bitmap
      ensures Valid() && done <= |bytes|
      ensures bytes == [] || offset > |old(Files())[q]| ==>
        Files() == old(Files()) && r == if bytes == [] then -1 else 0
      ensures bytes != [] && offset <= |old(Files())[q]| ==>
        && Files() == old(Files())[q := Splice(old(Files())[q], offset, bytes[..done])]
        && ((r == |bytes| && done == |bytes|) || (r == -1 && done < |bytes|))
    {
      FileNamed(table, q);
      var n := table[D.Lookup(table, q)].inode;
      if bytes == [] { return -1, 0; }
      if offset > inodes[n].size { return 0, 0; }
      ghost var was := Now();
      var ok;
      ok, done := WriteInode(n, offset, bytes, Named(table));
      WroteDir(was, Now(), table, q, Splice(was.Content(n), offset, bytes[..done]));
      assert bytes[..|bytes|] == bytes;
      r := if ok then |bytes| else -1;
    }

    /** The lowest inode that is not in use, or the number of inodes. */
    method FindFreeInode() returns (n: nat)
      requires |inodeBitmap| == |inodes|
      ensures n >= 1 && (n < |inodes| ==> !inodeBitmap[n])
      ensures forall m :: 1 <= m < n && m < |inodes| ==> inodeBitmap[m]
    {
      n := 1;
      while n < |inodes| && inodeBitmap[n]
        invariant 1 <= n && forall m :: 1 <= m < n && m < |inodes| ==> inodeBitmap[m]
      {
        n := n + 1;
      }
    }

    /** create: a new empty file under a name that fits and is not in use. */
    method Create(q: D.Name) returns (ok: bool)
      requires Valid()
      modifies this`inodes, this`inodeBitmap, this`table
      ensures Valid()
      ensures ok ==> q !in old(Files()) && Files() == old(Files())[q := []]
      ensures !ok ==> Now() == old(Now()) && table == old(table)
      ensures !ok ==> Unfit(table, q) || forall n :: 1 <= n < |inodes| ==> n in Named(table)
    {
      if Unfit(table, q) { return false; }
      var n := FindFreeInode();
      if n >= |inodes| { return false; }
      AddFile(q, n);
      return true;
    }

    method AddFile(q: D.Name, n: nat)
      requires Valid() && !Unfit(table, q) && n < |inodes| && !inodeBitmap[n]
      modifies this`inodes, this`inodeBitmap, this`table
      ensures Valid() && q !in old(Files()) && Files() == old(Files())[q := []]
    {
      ghost var was := Now();
      CreatedDir(was, table, q, n);
      inodeBitmap := inodeBitmap[n := true];
      inodes := inodes[n := Inode(0, Empty())];
      assert Now() == Created(was, n);
      table := table + [D.Dentry(D.Padded(q), D.REGULAR, n)];
    }

    /** Zeroes the blocks of a file, clears their bits and empties their slots. */
    method FreeBlocks(n: nat)
      requires n < |inodes| && Packed(inodes[n], |data|) && |bitmap| == |data|
      modifies this`data, this`bitmap, this`inodes
      ensures Now() == Released(old(Now()), n)
    {
      ghost var was, slots := Now(), inodes[n].slots;
      var i := 0;
      while i < 1023 && inodes[n].slots[i] != 0
        invariant 0 <= i <= 1023 && n < |inodes| && |inodes[n].slots| == 1023
        invariant |data| == |was.data| && |bitmap| == |was.bitmap|
        invariant inodes == was.inodes[n := was.inodes[n].(slots := inodes[n].slots)]
        invariant forall k :: 0 <= k < 1023 ==> inodes[n].slots[k] == if k < i then 0 else slots[k]
        invariant forall k :: 0 <= k < i ==> slots[k] != 0
        invariant forall b :: 0 <= b < |data| ==> data[b] == if b in slots[..i] then ZEROS else was.data[b]
        invariant forall b :: 0 <= b < |bitmap| ==> (bitmap[b] <==> was.bitmap[b] && b !in slots[..i])
      {
        var b := inodes[n].slots[i];
        assert b == slots[i] && slots[..i + 1] == slots[..i] + [b];
        data := data[b := ZEROS];
        bitmap := bitmap[b := false];
        inodes := inodes[n := inodes[n].(slots := inodes[n].slots[i := 0])];
        i := i + 1;
      }
      ReleasedSlots(was.inodes[n], |was.data|, i);
      assert inodes[n].slots == Empty();
      assert data == Released(was, n).data;
      assert bitmap == Released(was, n).bitmap;
    }

    /** delete: the name goes, and with it every block of the file, zeroed and free again. */
    method Delete(q: D.Name) returns (ok: bool)
      requires Valid()
      modifies this
      ensures Valid() && Files() == old(Files()) - {q}
      ensures ok <==> q in old(Files())
    {
      if q == [] {
        NoEmptyName(table);
        assert Files() - {q} == Files();
        return false;
      }
      D.LookupIsDir(table, q);
      var i := D.Lookup(table, q);
      if i == -1 || !D.IsFile(table[i]) {
        assert Files() - {q} == Files();
        return false;
      }
      RemoveFile(q, i);
      return true;
    }

    method RemoveFile(q: D.Name, i: nat)
      requires Valid() && i == D.Lookup(table, q) && D.IsFile(table[i])
      modifies this
      ensures Valid() && q in old(Files()) && Files() == old(Files()) - {q}
    {
      var n := table[i].inode;
      ReleasedDir(Now(), table, q);
      FreeBlocks(n);
      inodeBitmap := inodeBitmap[n := false];
      table := Without(table, i);
    }
  }

  function Empty(): (slots: seq<nat>) {
    seq(1023, _ => 0)
  }

  function Created(image: Image, n: nat): Image
    requires n < |image.inodes|
  {
    image.(inodes := image.inodes[n := Inode(0, Empty())])
  }

  lemma CreatedOwned(image: Image, names: set<nat>, n: nat)
    requires Owned(image, names) && n < |image.inodes| && n !in names
    ensures Owned(Created(image, n), names + {n})
    ensures Created(image, n).Content(n) == []
    ensures forall m :: m in names ==> Created(image, n).Content(m) == image.Content(m)
  {
    var r := Created(image, n);
    assert forall m :: m in names ==> r.inodes[m] == image.inodes[m] && Packed(r.inodes[m], |r.data|);
    assert forall m, k :: m in names && 0 <= k < 1023 ==> r.Slot(m, k) == image.Slot(m, k);
    assert Packed(r.inodes[n], |r.data|);
    forall b | 0 < b < |r.data| ensures r.bitmap[b] <==> Taken(r, names + {n}, b) {
      CreatedTaken(image, names, n, b);
    }
    forall m | m in names ensures r.Content(m) == image.Content(m) {
      assert Packed(image.inodes[m], |image.data|);
      ContentIs(r, m, image.Content(m));
    }
  }

  lemma CreatedTaken(image: Image, names: set<nat>, n: nat, b: nat)
    requires image.Sound() && n < |image.inodes| && n !in names && b != 0
    requires forall m :: m in names ==> m < |image.inodes|
    requires Created(image, n).Sound()
    ensures Taken(Created(image, n), names + {n}, b) <==> Taken(image, names, b)
  {
    var r := Created(image, n);
    if Taken(image, names, b) {
      var m, k :| m in names && 0 <= k < 1023 && image.Slot(m, k) == b;
      assert r.Slot(m, k) == b && m in names + {n};
    }
    if Taken(r, names + {n}, b) {
      var m, k :| m in names + {n} && 0 <= k < 1023 && r.Slot(m, k) == b;
      assert image.Slot(m, k) == b;
    }
  }

  lemma CreatedFiles(image: Image, dir: map<D.Name, nat>, q: D.Name, n: nat)
    requires Readable(image, dir) && q !in dir && n < |image.inodes|
    requires forall p :: p in dir ==> dir[p] != n
    ensures Readable(Created(image, n), dir[q := n])
    ensures FilesOf(Created(image, n), dir[q := n]) == FilesOf(image, dir)[q := []]
  {
    var (r, dir') := (Created(image, n), dir[q := n]);
    forall p | p in dir ensures r.Content(dir'[p]) == image.Content(dir[p]) {
      assert dir'[p] == dir[p] != n;
    }
  }

  /** What create leaves, on the disk and in the table. */
  lemma CreatedDir(image: Image, table: seq<D.Dentry>, q: D.Name, n: nat)
    requires Owned(image, Named(table)) && D.Distinct(table) && SeparateInodes(table)
    requires q != [] && |q| <= 32 && D.Lookup(table, q) == -1 && n < |image.inodes| && n !in Named(table)
    ensures var (r, more) := (Created(image, n), table + [D.Dentry(D.Padded(q), D.REGULAR, n)]);
      && Owned(r, Named(more)) && D.Distinct(more) && SeparateInodes(more) && Named(more) == Named(table) + {n}
      && Readable(image, D.DirOf(table)) && Readable(r, D.DirOf(more))
      && q !in D.DirOf(table) && FilesOf(r, D.DirOf(more)) == FilesOf(image, D.DirOf(table))[q := []]
  {
    AppendedTable(table, q, n);
    CreatedOwned(image, Named(table), n);
    TableReadable(image, table);
    forall p | p in D.DirOf(table) ensures D.DirOf(table)[p] != n {
      FileNamed(table, p);
    }
    CreatedFiles(image, D.DirOf(table), q, n);
  }

  /** A file without its blocks, which are zeroed and free. */
  function Released(image: Image, n: nat): Image
    requires n < |image.inodes| && |image.bitmap| == |image.data|
  {
    var slots := image.inodes[n].slots;
    Image(
      image.inodes[n := image.inodes[n].(slots := Empty())],
      seq(|image.data|, b requires 0 <= b < |image.data| => if b != 0 && b in slots then ZEROS else image.data[b]),
      seq(|image.data|, b requires 0 <= b < |image.data| => image.bitmap[b] && (b == 0 || b !in slots)))
  }

  lemma ReleasedOwned(image: Image, names: set<nat>, n: nat)
    requires Owned(image, names) && n in names
    ensures Owned(Released(image, n), names - {n})
    ensures forall m :: m in names && m != n ==> Released(image, n).Content(m) == image.Content(m)
  {
    var r := Released(image, n);
    assert forall m :: m in names && m != n ==> r.inodes[m] == image.inodes[m];
    assert forall m, k :: m in names && m != n && 0 <= k < 1023 ==> r.Slot(m, k) == image.Slot(m, k);
    forall b | 0 < b < |r.data| ensures r.bitmap[b] <==> Taken(r, names - {n}, b) {
      ReleasedTaken(image, names, n, b);
    }
    forall m | m in names && m != n ensures r.Content(m) == image.Content(m) {
      ReleasedContent(image, names, n, m);
    }
  }

  lemma ReleasedTaken(image: Image, names: set<nat>, n: nat, b: nat)
    requires Owned(image, names) && n in names && 0 < b < |image.data| && Released(image, n).Sound()
    ensures Released(image, n).bitmap[b] <==> Taken(Released(image, n), names - {n}, b)
  {
    var r := Released(image, n);
    if r.bitmap[b] {
      assert Taken(image, names, b);
      var m, k :| m in names && 0 <= k < 1023 && image.Slot(m, k) == b;
      assert m != n && r.Slot(m, k) == b && m in names - {n};
    }
    if Taken(r, names - {n}, b) {
      var m, k :| m in names - {n} && 0 <= k < 1023 && r.Slot(m, k) == b;
      assert image.Slot(m, k) == b;
      assert Taken(image, names, b);
      NotOthers(image, names, m, k, n);
    }
  }

  lemma ReleasedContent(image: Image, names: set<nat>, n: nat, m: nat)
    requires Owned(image, names) && n in names && m in names && m != n && Released(image, n).Sound()
    ensures Released(image, n).Content(m) == image.Content(m)
  {
    var r := Released(image, n);
    assert Packed(image.inodes[m], |image.data|);
    forall i | 0 <= i < image.inodes[m].size
      ensures r.data[r.inodes[m].slots[i / 4096]][i % 4096] == image.Content(m)[i]
    {
      SlotInUse(image.inodes[m], |image.data|, i);
      NotOthers(image, names, m, i / 4096, n);
    }
    ContentIs(r, m, image.Content(m));
  }

  lemma ReleasedSlots(file: Inode, blocks: nat, i: nat)
    requires Packed(file, blocks) && i <= 1023 && (i < 1023 ==> file.slots[i] == 0)
    requires forall k :: 0 <= k < i ==> file.slots[k] != 0
    ensures forall b :: b in file.slots[..i] <==> b != 0 && b in file.slots
    ensures forall k :: i <= k < 1023 ==> file.slots[k] == 0
  {
    assert forall k :: 0 <= k < i ==> file.slots[..i][k] == file.slots[k];
  }

  lemma ReleasedFiles(image: Image, dir: map<D.Name, nat>, q: D.Name)
    requires q in dir && Readable(image, dir) && |image.bitmap| == |image.data|
    requires Readable(Released(image, dir[q]), dir - {q})
    requires forall p :: p in dir && p != q ==>
      dir[p] != dir[q] && Released(image, dir[q]).Content(dir[p]) == image.Content(dir[p])
    ensures FilesOf(Released(image, dir[q]), dir - {q}) == FilesOf(image, dir) - {q}
  {}

  /** What delete leaves, on the disk and in the table. */
  lemma ReleasedDir(image: Image, table: seq<D.Dentry>, q: D.Name)
    requires Owned(image, Named(table)) && D.Distinct(table) && SeparateInodes(table)
    requires D.Lookup(table, q) >= 0 && D.IsFile(table[D.Lookup(table, q)])
    ensures var (i, dir) := (D.Lookup(table, q), D.DirOf(table));
      var (n, rest) := (table[i].inode, Without(table, i));
      && n < |image.inodes| && |image.bitmap| == |image.data| && Packed(image.inodes[n], |image.data|)
      && Owned(Released(image, n), Named(rest)) && D.Distinct(rest) && SeparateInodes(rest)
      && Named(rest) == Named(table) - {n}
      && Readable(image, dir) && Readable(Released(image, n), D.DirOf(rest))
      && q in dir && FilesOf(Released(image, n), D.DirOf(rest)) == FilesOf(image, dir) - {q}
  {
    var (i, dir) := (D.Lookup(table, q), D.DirOf(table));
    var n := table[i].inode;
    assert n in Named(table);
    RemovedTable(table, i);
    D.DeleteInDir(table, q);
    D.FileInDir(table, q, i);
    ReleasedOwned(image, Named(table), n);
    TableReadable(image, table);
    TableReadable(Released(image, n), Without(table, i));
    forall p | p in dir && p != q ensures dir[p] != n && Released(image, n).Content(dir[p]) == image.Content(dir[p]) {
      FilesApart(table, p, q);
      FileNamed(table, p);
    }
    ReleasedFiles(image, dir, q);
  }

  lemma WroteFiles(before: Image, after: Image, dir: map<D.Name, nat>, q: D.Name, content: seq<Byte>)
    requires q in dir && Readable(before, dir) && Readable(after, dir)
    requires after.Content(dir[q]) == content
    requires forall p :: p in dir && p != q ==> after.Content(dir[p]) == before.Content(dir[p])
    ensures FilesOf(after, dir) == FilesOf(before, dir)[q := content]
  {}

  /** What a write leaves. */
  lemma WroteDir(before: Image, after: Image, table: seq<D.Dentry>, q: D.Name, content: seq<Byte>)
    requires D.Distinct(table) && SeparateInodes(table) && q in D.DirOf(table) && Owned(before, Named(table))
    requires Wrote(before, after, Named(table), D.DirOf(table)[q], content)
    ensures Readable(before, D.DirOf(table)) && Readable(after, D.DirOf(table))
    ensures FilesOf(after, D.DirOf(table)) == FilesOf(before, D.DirOf(table))[q := content]
  {
    var dir := D.DirOf(table);
    TableReadable(before, table);
    TableReadable(after, table);
    forall p | p in dir && p != q ensures after.Content(dir[p]) == before.Content(dir[p]) {
      FilesApart(table, p, q);
      FileNamed(table, p);
    }
    WroteFiles(before, after, dir, q, content);
  }

  lemma SlotBefore(file: Inode, blocks: nat, offset: nat)
    requires Packed(file, blocks) && offset <= file.size && offset / 4096 < 1023
    ensures file.slots[offset / 4096] == 0 ==> NextSlot(file, offset / 4096)
    ensures file.slots[offset / 4096] < blocks
  {
    var slot := offset / 4096;
    assert slot > 0 ==> slot - 1 < Inode.Span(file.size);
  }

  lemma WithinBlockWrote(image: Image, names: set<nat>, n: nat, offset: nat, bytes: seq<Byte>)
    requires Owned(image, names) && n in names && !Refused(image, n, offset, bytes)
    requires Reaches(image, n, offset, bytes) && WithinBlock(image, n, offset, bytes)
    ensures Wrote(image, WriteRaw(image, n, offset, bytes), names, n, Splice(image.Content(n), offset, bytes))
  {
    WithinBlockOwned(image, names, n, offset, bytes);
    forall m | m in names
      ensures WriteRaw(image, n, offset, bytes).Content(m)
        == if m == n then Splice(image.Content(n), offset, bytes) else image.Content(m)
    {
      WithinBlockContent(image, names, n, offset, bytes, m);
    }
  }
}
