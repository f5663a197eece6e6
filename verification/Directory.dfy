/**
 The directory table of student-distrib/filesys.c and the file descriptors of syscall.c:
 read_dentry_by_name, open, close, create and delete, as written.
 */
module Directory {
  import opened Bytes
  import opened Sequences

  const DENTRIES := 63
  const DESCRIPTORS := 8
  const NO_INODE: nat := 0xFFFF_FFFF
  const REGULAR := 2

  /** A NUL-terminated string, without its terminator. */
  type Name = s: seq<Byte> | forall k :: 0 <= k < |s| ==> s[k] != NUL witness []

  type Field = s: seq<Byte> | |s| == 32 witness seq(32, _ => 0)

  datatype Dentry = Dentry(field: Field, fileType: nat, inode: nat)

  const NO_DENTRY := Dentry(seq(32, _ => 0), 0, 0)

  datatype Descriptor = Descriptor(present: bool, inode: nat, pos: nat, ops: nat)

  // ---------------------------------------------------------------------------------
  // Names in their 32-byte fields
  // ---------------------------------------------------------------------------------

  function NameLength(field: seq<Byte>): (n: nat)
    ensures n <= |field| && (n < |field| ==> field[n] == NUL)
    ensures forall k :: 0 <= k < n ==> field[k] != NUL
  {
    if field == [] || field[0] == NUL then 0 else 1 + NameLength(field[1..])
  }

  /** The name in a field ends at its first NUL, if there is one. */
  function NameIn(field: seq<Byte>): Name {
    field[..NameLength(field)]
  }

  /** create copies at most 32 bytes and pads with NUL. */
  function Padded(q: Name): (f: Field) {
    seq(32, k requires 0 <= k < 32 => if k < |q| then q[k] else NUL)
  }

  function Truncated(q: Name): Name {
    if |q| <= 32 then q else q[..32]
  }

  lemma NameInUnique(field: seq<Byte>, q: Name)
    requires |q| <= |field| && q == field[..|q|] && (|q| < |field| ==> field[|q|] == NUL)
    ensures NameIn(field) == q
  {
    forall k | 0 <= k < |q| ensures field[k] != NUL {
      assert q[k] == field[..|q|][k];
    }
  }

  lemma PaddedName(q: Name)
    ensures NameIn(Padded(q)) == Truncated(q)
  {
    NameInUnique(Padded(q), Truncated(q));
  }

  /** The lowest index from start on whose entry has the name, or the end of the table. */
  function Find(entries: seq<Dentry>, q: Name, start: nat): (i: nat)
    requires start <= |entries|
    ensures start <= i <= |entries|
    ensures i < |entries| ==> NameIn(entries[i].field) == q
    ensures forall k :: start <= k < i ==> NameIn(entries[k].field) != q
    decreases |entries| - start
  {
    if start == |entries| || NameIn(entries[start].field) == q then start else Find(entries, q, start + 1)
  }

  /** The lowest index with the name, or -1 when no entry has it. */
  function Lookup(entries: seq<Dentry>, q: Name): (i: int)
    ensures -1 <= i < |entries| && (i >= 0 ==> NameIn(entries[i].field) == q)
    ensures forall k :: 0 <= k < (if i == -1 then |entries| else i) ==> NameIn(entries[k].field) != q
  {
    var i := Find(entries, q, 0);
    if i == |entries| then -1 else i
  }

  ghost predicate Distinct(entries: seq<Dentry>) {
    forall i, j :: 0 <= i < j < |entries| ==> NameIn(entries[i].field) != NameIn(entries[j].field)
  }

  /** In a table of distinct names, lookup finds the one entry with the name. */
  lemma LookupUnique(entries: seq<Dentry>, q: Name, i: nat)
    requires Distinct(entries) && i < |entries| && NameIn(entries[i].field) == q
    ensures Lookup(entries, q) == i
  {}

  /**
   create keeps the names distinct exactly when the name fits its field, or what fits of it
   is new.
   */
  lemma CreateKeepsDistinct(entries: seq<Dentry>, q: Name, inode: nat)
    requires Distinct(entries) && Lookup(entries, q) == -1
    ensures Distinct(entries + [Dentry(Padded(q), REGULAR, inode)])
      <==> |q| <= 32 || Lookup(entries, Truncated(q)) == -1
  {
    PaddedName(q);
    var more := entries + [Dentry(Padded(q), REGULAR, inode)];
    var i := Lookup(entries, Truncated(q));
    if i >= 0 {
      assert NameIn(more[i].field) == NameIn(more[|entries|].field);
    }
  }

  /** What was created can be looked up exactly when its name fits the field. */
  lemma CreateThenLookup(entries: seq<Dentry>, q: Name, inode: nat)
    requires Lookup(entries, q) == -1
    ensures Lookup(entries + [Dentry(Padded(q), REGULAR, inode)], q) == if |q| <= 32 then |entries| else -1
  {
    PaddedName(q);
    var more := entries + [Dentry(Padded(q), REGULAR, inode)];
    var i := Find(more, q, 0);
    assert NameIn(more[|entries|].field) == Truncated(q);
    assert forall k :: 0 <= k < |entries| ==> NameIn(more[k].field) == NameIn(entries[k].field) != q;
  }

  /** The same 33-byte name can be created twice, and then it is there twice. */
  lemma LongNameTwice()
    ensures var q: Name := seq(33, _ => 65);
      var once := [Dentry(Padded(q), REGULAR, 1)];
      && Distinct(once) && Lookup(once, q) == -1
      && !Distinct(once + [Dentry(Padded(q), REGULAR, 1)])
  {
    var q: Name := seq(33, _ => 65);
    var once := [Dentry(Padded(q), REGULAR, 1)];
    CreateThenLookup([], q, 1);
    assert [] + once == once;
    var twice := once + [Dentry(Padded(q), REGULAR, 1)];
    assert NameIn(twice[0].field) == NameIn(twice[1].field);
  }

  /** delete takes out the one entry with the name; every other name leads to the entry it led to. */
  lemma DeleteRemoves(entries: seq<Dentry>, q: Name)
    requires Distinct(entries) && Lookup(entries, q) >= 0
    ensures var rest := Without(entries, Lookup(entries, q));
      && Distinct(rest) && Lookup(rest, q) == -1
      && forall p: Name :: p != q ==>
           && (Lookup(rest, p) == -1 <==> Lookup(entries, p) == -1)
           && (Lookup(rest, p) >= 0 ==> rest[Lookup(rest, p)] == entries[Lookup(entries, p)])
  {
    var i := Lookup(entries, q);
    var rest := Without(entries, i);
    forall p: Name | p != q
      ensures Lookup(rest, p) == -1 <==> Lookup(entries, p) == -1
      ensures Lookup(rest, p) >= 0 ==> rest[Lookup(rest, p)] == entries[Lookup(entries, p)]
    {
      var (j, k) := (Lookup(entries, p), Lookup(rest, p));
      if j >= 0 { assert rest[if j < i then j else j - 1] == entries[j]; }
      if k >= 0 { assert rest[k] == entries[if k < i then k else k + 1]; }
    }
  }

  // ---------------------------------------------------------------------------------
  // The table as a map
  // ---------------------------------------------------------------------------------

  predicate IsNamed(d: Dentry) { d.field[0] != NUL }

  /** An entry is in use exactly when its name is not empty. */
  lemma NamedIs(d: Dentry)
    ensures IsNamed(d) <==> NameIn(d.field) != []
  {}

  /** Neither a device nor the directory itself. */
  predicate IsFile(d: Dentry) { IsNamed(d) && d.fileType == REGULAR }

  /** The regular files of a table, by their names. */
  function DirOf(entries: seq<Dentry>): (dir: map<Name, nat>)
    decreases |entries|
  {
    if entries == [] then map[]
    else
      var (before, last) := (DirOf(entries[..|entries| - 1]), entries[|entries| - 1]);
      if IsFile(last) then before[NameIn(last.field) := last.inode] else before
  }

  lemma {:induction false} InDir(entries: seq<Dentry>, q: Name)
    requires Distinct(entries)
    ensures q in DirOf(entries) <==> exists i :: 0 <= i < |entries| && IsFile(entries[i]) && NameIn(entries[i].field) == q
    ensures forall i :: 0 <= i < |entries| && IsFile(entries[i]) && NameIn(entries[i].field) == q ==>
      q in DirOf(entries) && DirOf(entries)[q] == entries[i].inode
    decreases |entries|
  {
    if entries != [] {
      var last := |entries| - 1;
      var before := entries[..last];
      InDir(before, q);
      assert forall i :: 0 <= i < last ==> before[i] == entries[i];
      if i :| 0 <= i < |before| && IsFile(before[i]) && NameIn(before[i].field) == q {
        assert IsFile(entries[i]) && NameIn(entries[i].field) == q;
      }
    }
  }

  /** A lookup in the table is one in the map, devices apart. */
  lemma LookupIsDir(entries: seq<Dentry>, q: Name)
    requires Distinct(entries) && q != []
    ensures q in DirOf(entries) <==> Lookup(entries, q) >= 0 && entries[Lookup(entries, q)].fileType == 2
    ensures q in DirOf(entries) ==> DirOf(entries)[q] == entries[Lookup(entries, q)].inode
  {
    InDir(entries, q);
    if Lookup(entries, q) >= 0 { NamedIs(entries[Lookup(entries, q)]); }
    if q in DirOf(entries) {
      var i :| 0 <= i < |entries| && IsFile(entries[i]) && NameIn(entries[i].field) == q;
      LookupUnique(entries, q, i);
    }
  }

  /** create adds one name to the map. */
  lemma CreateInDir(entries: seq<Dentry>, q: Name, inode: nat)
    requires q != [] && |q| <= 32
    ensures DirOf(entries + [Dentry(Padded(q), REGULAR, inode)]) == DirOf(entries)[q := inode]
  {
    var more := entries + [Dentry(Padded(q), REGULAR, inode)];
    PaddedName(q);
    assert more[..|more| - 1] == entries && more[|more| - 1] == Dentry(Padded(q), REGULAR, inode);
    assert Padded(q)[0] == q[0];
  }

  lemma WithoutDistinct(entries: seq<Dentry>, i: nat)
    requires Distinct(entries) && i < |entries|
    ensures Distinct(Without(entries, i))
    ensures forall k :: 0 <= k < |entries| && k != i ==>
      Without(entries, i)[if k < i then k else k - 1] == entries[k]
  {}

  /** The entry of a file, by its name. */
  lemma FileInDir(entries: seq<Dentry>, p: Name, k: nat)
    requires Distinct(entries) && k < |entries| && IsFile(entries[k]) && NameIn(entries[k].field) == p
    ensures p in DirOf(entries) && DirOf(entries)[p] == entries[k].inode
  {
    InDir(entries, p);
  }

  lemma FileOfDir(entries: seq<Dentry>, p: Name) returns (k: nat)
    requires Distinct(entries) && p in DirOf(entries)
    ensures k < |entries| && IsFile(entries[k]) && NameIn(entries[k].field) == p
    ensures DirOf(entries)[p] == entries[k].inode
  {
    InDir(entries, p);
    k :| 0 <= k < |entries| && IsFile(entries[k]) && NameIn(entries[k].field) == p;
  }

  lemma WithoutInDir(entries: seq<Dentry>, i: nat, p: Name)
    requires Distinct(entries) && i < |entries| && p in DirOf(Without(entries, i))
    ensures p in DirOf(entries) && p != NameIn(entries[i].field) && DirOf(Without(entries, i))[p] == DirOf(entries)[p]
  {
    WithoutDistinct(entries, i);
    var rest := Without(entries, i);
    var k := FileOfDir(rest, p);
    var j := if k < i then k else k + 1;
    assert j != i && rest[k] == entries[j] && NameIn(entries[j].field) == p;
    FileInDir(entries, p, j);
  }

  lemma InDirWithout(entries: seq<Dentry>, i: nat, p: Name)
    requires Distinct(entries) && i < |entries| && p in DirOf(entries) && p != NameIn(entries[i].field)
    ensures p in DirOf(Without(entries, i))
  {
    WithoutDistinct(entries, i);
    var k := FileOfDir(entries, p);
    FileInDir(Without(entries, i), p, if k < i then k else k - 1);
  }

  /** delete takes one name from the map. */
  lemma DeleteInDir(entries: seq<Dentry>, q: Name)
    requires Distinct(entries) && Lookup(entries, q) >= 0
    ensures DirOf(Without(entries, Lookup(entries, q))) == DirOf(entries) - {q}
  {
    var i := Lookup(entries, q);
    forall p: Name | p in DirOf(Without(entries, i))
      ensures p in DirOf(entries) && p != q && DirOf(Without(entries, i))[p] == DirOf(entries)[p]
    {
      WithoutInDir(entries, i, p);
    }
    forall p: Name | p in DirOf(entries) && p != q ensures p in DirOf(Without(entries, i)) {
      InDirWithout(entries, i, p);
    }
  }
}
