/**
 The file descriptors of every process next to the directory table: open, create, close and
 delete of student-distrib/syscall.c, and what execute and halt do to the descriptors.
 */
module Descriptors {
  import opened Bytes
  import opened Directory
  import opened Limits
  import opened Sequences
  import V = Volume

  /** files[p][fd] is descriptor fd of process p; 0 and 1 belong to the terminal. */
  datatype Vfs = Vfs(entries: seq<Dentry>, files: seq<seq<Descriptor>>, present: seq<bool>) {
    predicate Sound() {
      && |entries| <= DENTRIES && |files| == |present| == PROCESSES
      && forall p :: 0 <= p < PROCESSES ==> |files[p]| == DESCRIPTORS
    }

    function Set(p: nat, fd: nat, d: Descriptor): Vfs
      requires p < |files| && fd < |files[p]|
    {
      this.(files := files[p := files[p][fd := d]])
    }
  }

  /** The lowest free descriptor from fd on, or 8. */
  function FreeSlot(files: seq<Descriptor>, fd: nat): (r: nat)
    requires |files| == DESCRIPTORS && fd <= DESCRIPTORS
    ensures fd <= r <= DESCRIPTORS && (r < DESCRIPTORS ==> !files[r].present)
    ensures forall j :: fd <= j < r ==> files[j].present
    decreases DESCRIPTORS - fd
  {
    if fd < DESCRIPTORS && files[fd].present then FreeSlot(files, fd + 1) else fd
  }

  function OpenStep(v: Vfs, p: nat, q: Name): (r: (Vfs, int))
    requires v.Sound() && p < PROCESSES
  {
    var fd := FreeSlot(v.files[p], 2);
    var i := Lookup(v.entries, q);
    if fd == DESCRIPTORS || i == -1 then (v, -1)
    else (v.Set(p, fd, Descriptor(true, v.entries[i].inode, 0, v.entries[i].fileType)), fd as int)
  }

  /** The part of create that concerns the table and the descriptors; inode is the one found. */
  function CreateStep(v: Vfs, p: nat, q: Name, inode: nat): (r: (Vfs, int))
    requires v.Sound() && p < PROCESSES && |v.entries| < DENTRIES
  {
    var fd := FreeSlot(v.files[p], 2);
    if fd == DESCRIPTORS || Lookup(v.entries, q) != -1 || inode == NO_INODE then (v, -1)
    else
      (v.(entries := v.entries + [Dentry(Padded(q), REGULAR, inode)])
        .Set(p, fd, Descriptor(true, inode, 0, REGULAR)), fd as int)
  }

  function CloseStep(v: Vfs, p: nat, fd: int): (r: (Vfs, int))
    requires v.Sound() && p < PROCESSES
  {
    if fd < 2 || fd >= DESCRIPTORS || !v.files[p][fd].present then (v, -1)
    else (v.Set(p, fd, v.files[p][fd].(present := false)), 0)
  }

  /** Some descriptor of a process that is not a base shell is open on the inode. */
  predicate HeldFrom(v: Vfs, from: nat, inode: nat)
    requires v.Sound()
  {
    exists p, j :: from <= p < PROCESSES && 2 <= j < DESCRIPTORS
      && v.files[p][j].present && v.files[p][j].inode == inode
  }

  function DeleteStep(v: Vfs, q: Name): (r: (Vfs, int))
    requires v.Sound()
  {
    var i := Lookup(v.entries, q);
    if i == -1 || HeldFrom(v, TERMINALS, v.entries[i].inode) then (v, -1)
    else (v.(entries := Without(v.entries, i)), 0)
  }

  /** Nothing is open from descriptor 2 on. */
  function Cleared(files: seq<Descriptor>): (r: seq<Descriptor>)
    ensures |r| == |files|
  {
    seq(|files|, j requires 0 <= j < |files| => if j < 2 then files[j] else files[j].(present := false))
  }

  /** The part of execute and of halt that concerns the descriptors of process p. */
  function Start(v: Vfs, p: nat): Vfs
    requires v.Sound() && p < PROCESSES
  {
    var files := Cleared(v.files[p])[0 := v.files[p][0].(present := true)][1 := v.files[p][1].(present := true)];
    v.(files := v.files[p := files], present := v.present[p := true])
  }

  function Stop(v: Vfs, p: nat): Vfs
    requires v.Sound() && p < PROCESSES
  {
    v.(files := v.files[p := Cleared(v.files[p])], present := v.present[p := false])
  }

  // ---------------------------------------------------------------------------------
  // No dangling descriptor
  // ---------------------------------------------------------------------------------

  ghost predicate Listed(entries: seq<Dentry>, inode: nat) {
    exists i :: 0 <= i < |entries| && entries[i].inode == inode
  }

  /** Every open descriptor of the processes from pid from on is of a process that runs and a file that exists. */
  ghost predicate NoDangling(v: Vfs, from: nat)
    requires v.Sound()
  {
    forall p, j :: from <= p < PROCESSES && 2 <= j < DESCRIPTORS && v.files[p][j].present ==>
      v.present[p] && Listed(v.entries, v.files[p][j].inode)
  }

  datatype Call =
    | CallOpen(p: nat, q: Name)
    | CallCreate(p: nat, q: Name, inode: nat)
    | CallClose(p: nat, fd: int)
    | CallDelete(q: Name)
    | CallStart(p: nat)
    | CallStop(p: nat)

  /** Only a process that runs makes calls, and create is called while the table has room. */
  predicate Possible(v: Vfs, c: Call) {
    && v.Sound()
    && match c
       case CallOpen(p, _) => p < PROCESSES && v.present[p]
       case CallCreate(p, _, _) => p < PROCESSES && v.present[p] && |v.entries| < DENTRIES
       case CallClose(p, _) => p < PROCESSES && v.present[p]
       case CallDelete(_) => true
       case CallStart(p) => p < PROCESSES && !v.present[p]
       case CallStop(p) => p < PROCESSES && v.present[p]
  }

  function Step(v: Vfs, c: Call): (r: Vfs)
    requires Possible(v, c)
    ensures r.Sound()
  {
    match c
    case CallOpen(p, q) => OpenStep(v, p, q).0
    case CallCreate(p, q, inode) => CreateStep(v, p, q, inode).0
    case CallClose(p, fd) => CloseStep(v, p, fd).0
    case CallDelete(q) => DeleteStep(v, q).0
    case CallStart(p) => Start(v, p)
    case CallStop(p) => Stop(v, p)
  }

  lemma ListedStays(entries: seq<Dentry>, more: seq<Dentry>, inode: nat)
    requires Listed(entries, inode)
    ensures Listed(entries + more, inode)
  {
    var i :| 0 <= i < |entries| && entries[i].inode == inode;
    assert (entries + more)[i].inode == inode;
  }

  /** Only the deleted entry's inode can go out of the table. */
  lemma ListedWithout(entries: seq<Dentry>, i: nat, inode: nat)
    requires i < |entries| && Listed(entries, inode) && inode != entries[i].inode
    ensures Listed(Without(entries, i), inode)
  {
    var k :| 0 <= k < |entries| && entries[k].inode == inode;
    assert Without(entries, i)[if k < i then k else k - 1].inode == inode;
  }

  lemma StepKeeps(v: Vfs, c: Call)
    requires Possible(v, c) && NoDangling(v, TERMINALS)
    ensures NoDangling(Step(v, c), TERMINALS)
  {
    var r := Step(v, c);
    forall p, j | TERMINALS <= p < PROCESSES && 2 <= j < DESCRIPTORS && r.files[p][j].present
      ensures r.present[p] && Listed(r.entries, r.files[p][j].inode)
    {
      match c
      case CallOpen(_, q) =>
      case CallCreate(m, q, inode) =>
        var last := [Dentry(Padded(q), REGULAR, inode)];
        if r.files[p][j] == v.files[p][j] {
          if r.entries != v.entries { ListedStays(v.entries, last, v.files[p][j].inode); }
        } else {
          assert (v.entries + last)[|v.entries|].inode == inode;
        }
      case CallDelete(q) =>
        if r.entries != v.entries {
          ListedWithout(v.entries, Lookup(v.entries, q), v.files[p][j].inode);
        }
      case CallClose(_, _) =>
      case CallStart(_) =>
      case CallStop(_) =>
    }
  }

  predicate PossibleAll(v: Vfs, cs: seq<Call>)
    decreases |cs|
  {
    cs == [] || (Possible(v, cs[0]) && PossibleAll(Step(v, cs[0]), cs[1..]))
  }

  function RunCalls(v: Vfs, cs: seq<Call>): Vfs
    requires PossibleAll(v, cs)
    decreases |cs|
  {
    if cs == [] then v else RunCalls(Step(v, cs[0]), cs[1..])
  }

  /** No run of calls leaves a program with a descriptor of a file that is gone. */
  lemma {:induction false} RunKeeps(v: Vfs, cs: seq<Call>)
    requires v.Sound() && PossibleAll(v, cs) && NoDangling(v, TERMINALS)
    ensures RunCalls(v, cs).Sound() && NoDangling(RunCalls(v, cs), TERMINALS)
    decreases |cs|
  {
    if cs != [] {
      StepKeeps(v, cs[0]);
      RunKeeps(Step(v, cs[0]), cs[1..]);
    }
  }

  /**
   The base shells are not looked at: a delete that succeeds keeps all six processes free of
   dangling descriptors exactly when no shell holds the inode, or it is listed once more.
   */
  lemma DeleteAndShells(v: Vfs, q: Name)
    requires v.Sound() && NoDangling(v, 0) && DeleteStep(v, q).1 == 0
    ensures var i := Lookup(v.entries, q);
      NoDangling(DeleteStep(v, q).0, 0) <==>
      (!HeldFrom(v, 0, v.entries[i].inode) || Listed(Without(v.entries, i), v.entries[i].inode))
  {
    var (r, i) := (DeleteStep(v, q).0, Lookup(v.entries, q));
    if !HeldFrom(v, 0, v.entries[i].inode) || Listed(r.entries, v.entries[i].inode) {
      forall p, j | 0 <= p < PROCESSES && 2 <= j < DESCRIPTORS && r.files[p][j].present
        ensures Listed(r.entries, r.files[p][j].inode)
      {
        if v.files[p][j].inode != v.entries[i].inode {
          ListedWithout(v.entries, i, v.files[p][j].inode);
        }
      }
    } else {
      var p, j :| 0 <= p < PROCESSES && 2 <= j < DESCRIPTORS
        && v.files[p][j].present && v.files[p][j].inode == v.entries[i].inode;
      assert r.files[p][j].present;
    }
  }

  /** The first base shell has the file open that is deleted. */
  lemma ShellKeepsDeleted()
    ensures var q: Name := [65];
      var open := seq(DESCRIPTORS, fd => Descriptor(fd <= 2, 1, 0, REGULAR));
      var closed := seq(DESCRIPTORS, fd => Descriptor(fd < 2, 1, 0, REGULAR));
      var v := Vfs([Dentry(Padded(q), REGULAR, 1)], [open] + seq(5, _ => closed), seq(PROCESSES, p => p < TERMINALS));
      v.Sound() && NoDangling(v, 0) && DeleteStep(v, q).1 == 0 && !NoDangling(DeleteStep(v, q).0, 0)
  {
    var q: Name := [65];
    var open := seq(DESCRIPTORS, fd => Descriptor(fd <= 2, 1, 0, REGULAR));
    var closed := seq(DESCRIPTORS, fd => Descriptor(fd < 2, 1, 0, REGULAR));
    var v := Vfs([Dentry(Padded(q), REGULAR, 1)], [open] + seq(5, _ => closed), seq(PROCESSES, p => p < TERMINALS));
    PaddedName(q);
    assert v.entries[0].inode == 1;
    assert Lookup(v.entries, q) == 0;
    assert v.files[0][2].present;
    DeleteAndShells(v, q);
  }

  // ---------------------------------------------------------------------------------
  // The inode of a new file
  // ---------------------------------------------------------------------------------

  ghost predicate OwnInodes(entries: seq<Dentry>) {
    forall i, j :: 0 <= i < j < |entries| ==> entries[i].inode != entries[j].inode
  }

  /** create with the inode that find_free_inode finds, on the table, the descriptors and the disk. */
  function CreateCall(v: Vfs, image: V.Image, p: nat, q: Name): (r: (Vfs, V.Image, int))
    requires v.Sound() && p < PROCESSES && |v.entries| < DENTRIES && |image.inodes| <= NO_INODE
  {
    var n := V.LowestInode(image.bitmap, |image.inodes|, 1);
    var (w, fd) := CreateStep(v, p, q, n);
    (w, if fd == -1 then image else V.CreateRaw(image, n), fd)
  }

  /** delete on the table, the descriptors and the disk. */
  function DeleteCall(v: Vfs, image: V.Image, q: Name): (r: (Vfs, V.Image, int))
    requires v.Sound() && forall i :: 0 <= i < |v.entries| ==> v.entries[i].inode < |image.inodes|
  {
    var (w, done) := DeleteStep(v, q);
    (w, if done == -1 then image else V.DeleteRaw(image, v.entries[Lookup(v.entries, q)].inode), done)
  }

  /**
   create keeps every file on an inode of its own exactly when no file's inode has the number
   of the first free block.
   */
  lemma CreateKeepsOwnInodes(v: Vfs, image: V.Image, p: nat, q: Name)
    requires v.Sound() && p < PROCESSES && |v.entries| < DENTRIES && |image.inodes| <= NO_INODE
    requires OwnInodes(v.entries) && CreateCall(v, image, p, q).2 != -1
    ensures OwnInodes(CreateCall(v, image, p, q).0.entries) <==>
      forall i :: 0 <= i < |v.entries| ==> !V.FirstFreeBlock(image.bitmap, |image.inodes|, v.entries[i].inode)
  {
    var r := CreateCall(v, image, p, q).0;
    var last := |v.entries|;
    forall i | 0 <= i < last
      ensures V.FirstFreeBlock(image.bitmap, |image.inodes|, v.entries[i].inode) <==> r.entries[i].inode == r.entries[last].inode
    {
      if v.entries[i].inode < NO_INODE {
        V.FoundInode(image.bitmap, |image.inodes|, v.entries[i].inode);
      }
    }
  }

  /**
   Nothing marks an inode that was found. Whatever is written to a new file, the next create
   finds the same inode again, and the new file's bytes are gone.
   */
  lemma CreatedTwiceShare(v: Vfs, image: V.Image, p: nat, a: Name, b: Name, buf: seq<Byte>)
    requires v.Sound() && p < PROCESSES && |v.entries| < DENTRIES - 1 && |image.inodes| <= NO_INODE && image.Sound()
    requires CreateCall(v, image, p, a).2 != -1
    requires var (v1, image1, _) := CreateCall(v, image, p, a);
      var n := v1.entries[|v.entries|].inode;
      && !V.Refused(image1, n, 0, buf) && V.Reaches(image1, n, 0, buf)
      && CreateCall(v1, V.WriteRaw(image1, n, 0, buf), p, b).2 != -1
    ensures var (v1, image1, _) := CreateCall(v, image, p, a);
      var n := v1.entries[|v.entries|].inode;
      var (v2, image2, _) := CreateCall(v1, V.WriteRaw(image1, n, 0, buf), p, b);
      && v2.entries[|v.entries|].inode == n == v2.entries[|v.entries| + 1].inode && !OwnInodes(v2.entries)
      && V.WriteRaw(image1, n, 0, buf).inodes[n].size == |buf| && image2.inodes[n].size == 0
  {
    var (v1, image1, _) := CreateCall(v, image, p, a);
    var n := v1.entries[|v.entries|].inode;
    var (v2, image2, _) := CreateCall(v1, V.WriteRaw(image1, n, 0, buf), p, b);
    assert v2.entries[|v.entries|].inode == v2.entries[|v.entries| + 1].inode == n;
  }

  // ---------------------------------------------------------------------------------
  // What the calls promise
  // ---------------------------------------------------------------------------------

  /** Descriptor fd of process p is the lowest that is free, from 2 on. */
  ghost predicate LowestFree(v: Vfs, p: nat, fd: int)
    requires v.Sound() && p < PROCESSES
  {
    2 <= fd < 8 && !v.files[p][fd].present && forall j :: 2 <= j < fd ==> v.files[p][j].present
  }

  /** Entry i is the lowest with the name. */
  ghost predicate FirstNamed(entries: seq<Dentry>, q: Name, i: int) {
    0 <= i < |entries| && NameIn(entries[i].field) == q && forall k :: 0 <= k < i ==> NameIn(entries[k].field) != q
  }

  /** Nothing is changed but descriptor fd of process p. */
  ghost predicate OnlyFile(v: Vfs, w: Vfs, p: nat, fd: int)
    requires v.Sound() && w.Sound()
  {
    && w.present == v.present
    && forall m, j :: 0 <= m < 6 && 0 <= j < 8 && !(m == p && j == fd) ==> w.files[m][j] == v.files[m][j]
  }

  /** What open leaves and answers. */
  ghost predicate Opened(v: Vfs, w: Vfs, p: nat, q: Name, r: int)
    requires v.Sound() && w.Sound() && p < PROCESSES
  {
    && (r == -1 <==>
          (forall j :: 2 <= j < 8 ==> v.files[p][j].present)
          || forall i :: 0 <= i < |v.entries| ==> NameIn(v.entries[i].field) != q)
    && (r == -1 ==> w == v)
    && (r != -1 ==>
          && LowestFree(v, p, r) && w.entries == v.entries && OnlyFile(v, w, p, r)
          && exists i :: FirstNamed(v.entries, q, i)
               && w.files[p][r] == Descriptor(true, v.entries[i].inode, 0, v.entries[i].fileType))
  }

  lemma OpenIs(v: Vfs, p: nat, q: Name)
    requires v.Sound() && p < PROCESSES
    ensures OpenStep(v, p, q).0.Sound() && Opened(v, OpenStep(v, p, q).0, p, q, OpenStep(v, p, q).1)
  {
    var i := Lookup(v.entries, q);
    if i != -1 { assert FirstNamed(v.entries, q, i); }
  }

  /** What close leaves and answers. */
  ghost predicate Closed(v: Vfs, w: Vfs, p: nat, fd: int, r: int)
    requires v.Sound() && w.Sound() && p < PROCESSES
  {
    if 2 <= fd < 8 && v.files[p][fd].present then
      r == 0 && !w.files[p][fd].present && w.entries == v.entries && OnlyFile(v, w, p, fd)
    else
      r == -1 && w == v
  }

  /** What create leaves and answers: a new entry at the end of the table, on an inode of size 0, and a descriptor of it. */
  ghost predicate Created(v: Vfs, image: V.Image, w: Vfs, after: V.Image, p: nat, q: Name, r: int)
    requires v.Sound() && w.Sound() && p < PROCESSES
  {
    && (r == -1 <==>
          (forall j :: 2 <= j < 8 ==> v.files[p][j].present)
          || (exists i :: 0 <= i < |v.entries| && NameIn(v.entries[i].field) == q)
          || forall n :: 1 <= n < |image.inodes| ==> V.Bit(image.bitmap, n))
    && (r == -1 ==> w == v && after == image)
    && (r != -1 ==>
          && LowestFree(v, p, r) && OnlyFile(v, w, p, r)
          && |w.entries| == |v.entries| + 1 && w.entries[..|v.entries|] == v.entries
          && var d := w.entries[|v.entries|];
             && NameIn(d.field) == (if |q| <= 32 then q else q[..32]) && d.fileType == 2 && V.FirstFreeBlock(image.bitmap, |image.inodes|, d.inode)
             && w.files[p][r] == Descriptor(true, d.inode, 0, 2)
             && after.data == image.data && after.bitmap == image.bitmap && |after.inodes| == |image.inodes|
             && after.inodes[d.inode].size == 0 && after.inodes[d.inode].slots == image.inodes[d.inode].slots
             && forall n :: 0 <= n < |image.inodes| && n != d.inode ==> after.inodes[n] == image.inodes[n])
  }

  lemma CreateIs(v: Vfs, image: V.Image, p: nat, q: Name)
    requires v.Sound() && p < PROCESSES && |v.entries| < DENTRIES && |image.inodes| <= NO_INODE
    ensures var (w, after, r) := CreateCall(v, image, p, q);
      w.Sound() && Created(v, image, w, after, p, q, r)
  {
    var (w, after, r) := CreateCall(v, image, p, q);
    PaddedName(q);
    var n := V.LowestInode(image.bitmap, |image.inodes|, 1);
    var i := Lookup(v.entries, q);
    if i != -1 { assert NameIn(v.entries[i].field) == q; }
  }

  /** What was created under a name that fits its field is what the name opens, in whichever process. */
  lemma CreateThenOpen(v: Vfs, image: V.Image, p: nat, m: nat, q: Name)
    requires v.Sound() && p < PROCESSES && m < PROCESSES && |v.entries| < DENTRIES && |image.inodes| <= NO_INODE
    requires CreateCall(v, image, p, q).2 != -1 && OpenStep(CreateCall(v, image, p, q).0, m, q).1 != -1
    ensures var (w, _, fd) := CreateCall(v, image, p, q);
      var (u, again) := OpenStep(w, m, q);
      u.files[m][again].inode == w.files[p][fd].inode && u.files[m][again].pos == 0
  {
    CreateThenLookup(v.entries, q, V.LowestInode(image.bitmap, |image.inodes|, 1));
  }

  /** It does open it exactly when a descriptor is left and the name fits its field. */
  lemma CreatedOpens(v: Vfs, image: V.Image, p: nat, m: nat, q: Name)
    requires v.Sound() && p < PROCESSES && m < PROCESSES && |v.entries| < DENTRIES && |image.inodes| <= NO_INODE
    requires CreateCall(v, image, p, q).2 != -1
    ensures var w := CreateCall(v, image, p, q).0;
      OpenStep(w, m, q).1 != -1 <==> |q| <= 32 && exists j :: 2 <= j < 8 && !w.files[m][j].present
  {
    CreateThenLookup(v.entries, q, V.LowestInode(image.bitmap, |image.inodes|, 1));
    OpenIs(CreateCall(v, image, p, q).0, m, q);
  }

  /**
   What delete leaves and answers: it refuses a name that is not there, and a file that a
   program holds; otherwise the lowest entry with the name goes and its blocks are zeroed.
   */
  ghost predicate Deleted(v: Vfs, image: V.Image, w: Vfs, after: V.Image, q: Name, r: int)
    requires v.Sound() && forall i :: 0 <= i < |v.entries| ==> v.entries[i].inode < |image.inodes|
  {
    && (r == -1 <==> forall i :: FirstNamed(v.entries, q, i) ==> HeldFrom(v, 3, v.entries[i].inode))
    && (r == -1 ==> w == v && after == image)
    && (r != -1 ==>
          && r == 0 && w.files == v.files && w.present == v.present && |w.entries| == |v.entries| - 1
          && exists i :: FirstNamed(v.entries, q, i) && V.Zeroed(image, after, v.entries[i].inode)
               && forall k :: 0 <= k < |w.entries| ==> w.entries[k] == v.entries[if k < i then k else k + 1])
  }

  lemma OnlyFirst(entries: seq<Dentry>, q: Name, k: int)
    ensures FirstNamed(entries, q, k) <==> k != -1 && k == Lookup(entries, q)
  {}

  lemma DeleteIs(v: Vfs, image: V.Image, q: Name)
    requires v.Sound() && forall i :: 0 <= i < |v.entries| ==> v.entries[i].inode < |image.inodes|
    ensures var (w, after, r) := DeleteCall(v, image, q); Deleted(v, image, w, after, q, r)
  {
    var (w, after, r) := DeleteCall(v, image, q);
    var i := Lookup(v.entries, q);
    forall k: int { OnlyFirst(v.entries, q, k); }
    if r != -1 {
      V.DeleteRawIs(image, v.entries[i].inode);
      assert forall k :: 0 <= k < |w.entries| ==> w.entries[k] == v.entries[if k < i then k else k + 1];
      assert FirstNamed(v.entries, q, i) && V.Zeroed(image, after, v.entries[i].inode);
    } else if i != -1 {
      assert FirstNamed(v.entries, q, i);
    }
  }

  /** execute and halt: descriptors 0 and 1 are open in a program that starts, no other is in one that starts or has ended. */
  lemma StartAndStop(v: Vfs, p: nat)
    requires v.Sound() && p < PROCESSES
    ensures forall j :: 0 <= j < 8 ==> (Start(v, p).files[p][j].present <==> j < 2)
    ensures forall j :: 2 <= j < 8 ==> !Stop(v, p).files[p][j].present
    ensures Start(v, p).present[p] && !Stop(v, p).present[p]
    ensures forall m :: 0 <= m < 6 && m != p ==>
      && Start(v, p).files[m] == Stop(v, p).files[m] == v.files[m]
      && Start(v, p).present[m] == Stop(v, p).present[m] == v.present[m]
    ensures Start(v, p).entries == Stop(v, p).entries == v.entries
  {}

  // ---------------------------------------------------------------------------------
  // The code
  // ---------------------------------------------------------------------------------

  /** Every slot of an inode holds a block of the disk, or 0. */
  ghost predicate Slotted(file: V.Inode, blocks: nat) {
    |file.slots| == 1023 && forall k :: 0 <= k < 1023 ==> file.slots[k] < blocks
  }

  class Globals {
    /** boot_block->dentries and dentry_count. */
    var dentries: array<Dentry>
    var count: nat
    var files: seq<seq<Descriptor>>
    var present: seq<bool>
    const disk: V.Globals

    ghost predicate Valid()
      reads this, dentries, disk
    {
      && dentries.Length == DENTRIES && count <= DENTRIES && Now().Sound()
      && |disk.inodes| <= NO_INODE && (forall i :: 0 <= i < count ==> dentries[i].inode < |disk.inodes|)
      && forall n :: 0 <= n < |disk.inodes| ==> Slotted(disk.inodes[n], |disk.data|)
    }

    ghost function Now(): Vfs
      reads this, dentries
      requires count <= dentries.Length
    {
      Vfs(dentries[..count], files, present)
    }

    constructor (v: Vfs, disk: V.Globals)
      requires v.Sound() && |disk.inodes| <= NO_INODE
      requires forall i :: 0 <= i < |v.entries| ==> v.entries[i].inode < |disk.inodes|
      requires forall n :: 0 <= n < |disk.inodes| ==> Slotted(disk.inodes[n], |disk.data|)
      ensures Valid() && Now() == v && this.disk == disk && fresh(dentries)
    {
      this.disk := disk;
      var table := new Dentry[DENTRIES](i => if 0 <= i < |v.entries| then v.entries[i] else NO_DENTRY);
      dentries, count, files, present := table, |v.entries|, v.files, v.present;
      new;
      assert dentries[..count] == v.entries;
    }

    /** Compares a name with the name in a field, byte by byte. */
    method SameName(q: Name, field: Field) returns (same: bool)
      ensures same <==> NameIn(field) == q
    {
      var j := 0;
      while j < 32 && j < |q| && q[j] == field[j]
        invariant 0 <= j <= 32 && j <= |q| && q[..j] == field[..j]
      {
        j := j + 1;
      }
      same := j == |q| && (j == 32 || field[j] == NUL);
      if same { NameInUnique(field, q); }
      assert forall k :: 0 <= k < NameLength(field) ==> NameIn(field)[k] == field[k];
    }

    method ReadDentryByName(q: Name) returns (index: int)
      requires Valid()
      ensures index == Lookup(dentries[..count], q)
    {
      var i := 0;
      while i < count
        invariant 0 <= i <= count && Find(dentries[..count], q, i) == Find(dentries[..count], q, 0)
      {
        var same := SameName(q, dentries[i].field);
        if same { return i; }
        i := i + 1;
      }
      return -1;
    }

    /** The loop of open and of create over the descriptors of the running process. */
    method FindSlot(p: nat) returns (fd: nat)
      requires Valid() && p < PROCESSES
      ensures fd == FreeSlot(files[p], 2)
    {
      fd := 2;
      while fd < DESCRIPTORS && files[p][fd].present
        invariant 2 <= fd <= DESCRIPTORS && FreeSlot(files[p], fd) == FreeSlot(files[p], 2)
      {
        fd := fd + 1;
      }
    }

    method SetFile(p: nat, fd: nat, inode: nat, ops: nat)
      requires Valid() && p < PROCESSES && fd < DESCRIPTORS
      modifies this`files
      ensures Valid() && Now() == old(Now()).Set(p, fd, Descriptor(true, inode, 0, ops))
    {
      files := files[p := files[p][fd := Descriptor(true, inode, 0, ops)]];
    }

    method Open(p: nat, q: Name) returns (r: int)
      requires Valid() && p < PROCESSES
      modifies this`files
      ensures Valid() && Now() == OpenStep(old(Now()), p, q).0 && r == OpenStep(old(Now()), p, q).1
      ensures Opened(old(Now()), Now(), p, q, r)
    {
      OpenIs(Now(), p, q);
      var fd := FindSlot(p);
      if fd == DESCRIPTORS { return -1; }
      var i := ReadDentryByName(q);
      if i == -1 { return -1; }
      SetFile(p, fd, dentries[i].inode, dentries[i].fileType);
      return fd;
    }

    method Create(p: nat, q: Name) returns (r: int)
      requires Valid() && p < PROCESSES && count < DENTRIES
      modifies this`files, this`count, dentries, disk`inodes
      ensures Valid()
      ensures (Now(), disk.Now(), r) == CreateCall(old(Now()), old(disk.Now()), p, q)
      ensures Created(old(Now()), old(disk.Now()), Now(), disk.Now(), p, q, r)
    {
      CreateIs(Now(), disk.Now(), p, q);
      var fd := FindSlot(p);
      if fd == DESCRIPTORS { return -1; }
      var i := ReadDentryByName(q);
      if i != -1 { return -1; }
      var inode := disk.FindFreeInode();
      if inode == NO_INODE { return -1; }
      var name := CopyName(q);
      disk.EmptyInode(inode);
      Append(Dentry(name, REGULAR, inode));
      SetFile(p, fd, inode, REGULAR);
      return fd;
    }

    /** The loops of create over the name and its padding. */
    method CopyName(q: Name) returns (name: seq<Byte>)
      ensures name == Padded(q)
    {
      name := [];
      while |name| < |q| && |name| < 32
        invariant |name| <= |q| && |name| <= 32 && name == q[..|name|]
      {
        name := name + [q[|name|]];
      }
      ghost var copied := |name|;
      while |name| < 32
        invariant copied <= |name| <= 32 && name[..copied] == q[..copied]
        invariant forall k :: copied <= k < |name| ==> name[k] == NUL
        decreases 32 - |name|
      {
        name := name + [NUL];
      }
      assert forall k :: 0 <= k < copied ==> name[k] == name[..copied][k] == q[..copied][k];
    }

    method Append(d: Dentry)
      requires Valid() && count < DENTRIES && d.inode < |disk.inodes|
      modifies this`count, dentries
      ensures Valid() && Now() == old(Now()).(entries := old(Now()).entries + [d])
    {
      ghost var was := Now();
      dentries[count] := d;
      count := count + 1;
      assert dentries[..count] == was.entries + [d];
    }

    method Close(p: nat, fd: int) returns (r: int)
      requires Valid() && p < PROCESSES
      modifies this`files
      ensures Valid() && Now() == CloseStep(old(Now()), p, fd).0 && r == CloseStep(old(Now()), p, fd).1
      ensures Closed(old(Now()), Now(), p, fd, r)
    {
      if fd < 2 || fd >= DESCRIPTORS || !files[p][fd].present { return -1; }
      files := files[p := files[p][fd := files[p][fd].(present := false)]];
      return 0;
    }

    /** The search of delete through the descriptors of the processes that are not base shells. */
    method IsHeld(inode: nat) returns (held: bool)
      requires Valid()
      ensures held <==> HeldFrom(Now(), TERMINALS, inode)
    {
      for p := TERMINALS to PROCESSES
        invariant forall m, j :: TERMINALS <= m < p && 2 <= j < DESCRIPTORS ==>
          !(files[m][j].present && files[m][j].inode == inode)
      {
        for j := 2 to DESCRIPTORS
          invariant forall k :: 2 <= k < j ==> !(files[p][k].present && files[p][k].inode == inode)
        {
          if files[p][j].present && files[p][j].inode == inode { return true; }
        }
      }
      return false;
    }

    /** Takes an entry out of the table: those behind it move up by one. */
    method Remove(index: nat)
      requires Valid() && index < count
      modifies this`count, dentries
      ensures Valid() && Now() == old(Now()).(entries := Without(old(Now()).entries, index))
    {
      var k := index;
      while k + 1 < count
        invariant index <= k < count
        invariant forall i :: 0 <= i < count ==>
          dentries[i] == if index <= i < k then old(dentries[i + 1]) else old(dentries[i])
        modifies dentries
      {
        dentries[k] := dentries[k + 1];
        k := k + 1;
      }
      dentries[count - 1] := NO_DENTRY;
      count := count - 1;
      assert dentries[..count] == Without(old(dentries[..count]), index);
    }

    /** delete, for a file whose slots the loop over its blocks does not leave. */
    method Delete(q: Name) returns (r: int)
      requires Valid()
      requires |disk.inodes| < 1023 || forall i :: 0 <= i < count ==> 0 in disk.inodes[dentries[i].inode].slots
      modifies this`count, dentries, disk`data, disk`bitmap
      ensures Valid()
      ensures (Now(), disk.Now(), r) == DeleteCall(old(Now()), old(disk.Now()), q)
    {
      var index := ReadDentryByName(q);
      if index == -1 { return -1; }
      var held := IsHeld(dentries[index].inode);
      if held { return -1; }
      disk.ZeroBlocks(dentries[index].inode);
      Remove(index);
      return 0;
    }
  }
}
