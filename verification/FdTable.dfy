/**
 File descriptors (kernel/fs/hash.c): the table from descriptors to inodes and the
 quadratic-probe hash table from inodes back to descriptors. Inodes are addresses; 0 is NULL.
 */
module FdTable {
  import opened Platform

  const FILE_TABLE_SIZE: nat := 1024
  const FILE_HASH_SIZE: nat := 1031
  const FILE_HASH_SQRT: nat := 32

  /** `hash_generate` and `hash_conflict`: the `i`-th slot probed for an inode. */
  function Probe(inode: nat, i: nat): (j: nat)
    ensures j < FILE_HASH_SIZE
  {
    ((inode - KERNEL_START) % FILE_HASH_SIZE + i * i) % FILE_HASH_SIZE
  }

  /** The 33 probed slots are different: their squares are, and all are below the table size. */
  lemma ProbesDistinct(inode: nat, a: nat, b: nat)
    requires a < b <= FILE_HASH_SQRT
    ensures Probe(inode, a) != Probe(inode, b)
  {
    SquaresBelow(a, b);
    WrapsOnce((inode - KERNEL_START) % FILE_HASH_SIZE, a * a, b * b);
  }

  lemma SquaresBelow(a: nat, b: nat)
    requires a < b <= FILE_HASH_SQRT
    ensures a * a < b * b <= 1024
  {
    assert b * b == a * a + (b - a) * (a + b);
    assert b * b <= 32 * 32;
  }

  lemma WrapsOnce(h: nat, x: nat, y: nat)
    requires h < FILE_HASH_SIZE && x < y < FILE_HASH_SIZE
    ensures (h + x) % FILE_HASH_SIZE != (h + y) % FILE_HASH_SIZE
  {
  }

  ghost predicate OnProbe(inode: nat, j: nat) {
    exists i: nat :: i <= FILE_HASH_SQRT && Probe(inode, i) == j
  }

  /** Slot `j` holds an inode that has a descriptor, and is one of its probes. */
  ghost predicate SlotOk(keys: seq<nat>, values: seq<nat>, files: seq<nat>, j: nat)
    requires |keys| == |values| == FILE_HASH_SIZE && |files| == FILE_TABLE_SIZE
  {
    && j < FILE_HASH_SIZE
    && (keys[j] == 0 || (values[j] < FILE_TABLE_SIZE && files[values[j]] == keys[j] && OnProbe(keys[j], j)))
  }

  /** The inode of descriptor `fd` is in the hash table under `fd`. */
  ghost predicate FdOk(keys: seq<nat>, values: seq<nat>, files: seq<nat>, fd: nat)
    requires |keys| == |values| == FILE_HASH_SIZE && |files| == FILE_TABLE_SIZE
  {
    && fd < FILE_TABLE_SIZE
    && (files[fd] == 0 ||
        (files[fd] > KERNEL_START && exists j: nat :: j < FILE_HASH_SIZE && keys[j] == files[fd] && values[j] == fd))
  }

  ghost predicate Inv(keys: seq<nat>, values: seq<nat>, files: seq<nat>) {
    && |keys| == |values| == FILE_HASH_SIZE && |files| == FILE_TABLE_SIZE
    && (forall j: nat :: j < FILE_HASH_SIZE ==> SlotOk(keys, values, files, j))
    && (forall fd: nat :: fd < FILE_TABLE_SIZE ==> FdOk(keys, values, files, fd))
    && (forall i: nat, j: nat :: i < j < FILE_HASH_SIZE && keys[i] != 0 ==> keys[i] != keys[j])
  }

  /** No inode has two descriptors. */
  lemma OneDescriptor(keys: seq<nat>, values: seq<nat>, files: seq<nat>, a: nat, b: nat)
    requires Inv(keys, values, files) && a < FILE_TABLE_SIZE && b < FILE_TABLE_SIZE && files[a] == files[b] != 0
    ensures a == b
  {
    assert FdOk(keys, values, files, a) && FdOk(keys, values, files, b);
  }

  /** An inode has a descriptor exactly when one of its probes holds it, and then that slot names the descriptor. */
  lemma FoundIffOpen(keys: seq<nat>, values: seq<nat>, files: seq<nat>, inode: nat)
    requires Inv(keys, values, files) && inode != 0
    ensures inode in files <==> exists i: nat :: i <= FILE_HASH_SQRT && keys[Probe(inode, i)] == inode
    ensures forall i: nat :: i <= FILE_HASH_SQRT && keys[Probe(inode, i)] == inode ==>
      values[Probe(inode, i)] < FILE_TABLE_SIZE && files[values[Probe(inode, i)]] == inode
  {
    if inode in files {
      var fd: nat :| fd < FILE_TABLE_SIZE && files[fd] == inode;
      assert FdOk(keys, values, files, fd);
      var j: nat :| j < FILE_HASH_SIZE && keys[j] == inode && values[j] == fd;
      assert SlotOk(keys, values, files, j);
      var i: nat :| i <= FILE_HASH_SQRT && Probe(inode, i) == j;
      assert keys[Probe(inode, i)] == inode;
    }
    forall i: nat | i <= FILE_HASH_SQRT && keys[Probe(inode, i)] == inode
      ensures values[Probe(inode, i)] < FILE_TABLE_SIZE && files[values[Probe(inode, i)]] == inode
    {
      assert SlotOk(keys, values, files, Probe(inode, i));
    }
  }

  lemma InsertKeeps(keys: seq<nat>, values: seq<nat>, files: seq<nat>, inode: nat, fd: nat, i: nat)
    requires Inv(keys, values, files) && inode > KERNEL_START
    requires inode !in files && fd < FILE_TABLE_SIZE && files[fd] == 0
    requires i <= FILE_HASH_SQRT && keys[Probe(inode, i)] == 0
    ensures Inv(keys[Probe(inode, i) := inode], values[Probe(inode, i) := fd], files[fd := inode])
  {
    var s := Probe(inode, i);
    var keys', values', files' := keys[s := inode], values[s := fd], files[fd := inode];
    hide Probe;
    forall j: nat | j < FILE_HASH_SIZE ensures SlotOk(keys', values', files', j) && (j != s ==> keys'[j] != inode) {
      assert SlotOk(keys, values, files, j);
    }
    forall g: nat | g < FILE_TABLE_SIZE ensures FdOk(keys', values', files', g) {
      assert FdOk(keys, values, files, g);
      if g == fd {
        assert keys'[s] == files'[g];
      } else if files[g] != 0 {
        var j: nat :| j < FILE_HASH_SIZE && keys[j] == files[g] && values[j] == g;
        assert keys'[j] == files'[g];
      }
    }
  }

  lemma DeleteKeeps(keys: seq<nat>, values: seq<nat>, files: seq<nat>, fd: nat, s: nat)
    requires Inv(keys, values, files) && fd < FILE_TABLE_SIZE
    requires files[fd] != 0 && s < FILE_HASH_SIZE && keys[s] == files[fd]
    ensures Inv(keys[s := 0], values, files[fd := 0])
  {
    var keys', files' := keys[s := 0], files[fd := 0];
    assert SlotOk(keys, values, files, s);
    OneDescriptor(keys, values, files, values[s], fd);
    forall j: nat | j < FILE_HASH_SIZE ensures SlotOk(keys', values, files', j) {
      assert SlotOk(keys, values, files, j);
    }
    forall g: nat | g < FILE_TABLE_SIZE ensures FdOk(keys', values, files', g) {
      assert FdOk(keys, values, files, g);
      if g != fd && files[g] != 0 {
        var j: nat :| j < FILE_HASH_SIZE && keys[j] == files[g] && values[j] == g;
        assert keys'[j] == files'[g];
      }
    }
  }

  class Table {
    const keys: array<nat>
    const values: array<nat>
    const files: array<nat>

    ghost predicate Valid()
      reads this, keys, values, files
    {
      keys != values && keys != files && values != files && Inv(keys[..], values[..], files[..])
    }

    constructor ()
      ensures Valid() && fresh(keys) && fresh(values) && fresh(files)
      ensures forall inode :: inode != 0 ==> inode !in files[..]
    {
      keys := new nat[FILE_HASH_SIZE](_ => 0);
      values := new nat[FILE_HASH_SIZE](_ => 0);
      files := new nat[FILE_TABLE_SIZE](_ => 0);
      new;
      EmptyInv(keys[..], values[..], files[..]);
    }

    /** `hash_findf` */
    method HashFindf(inode: nat) returns (slot: Option<nat>)
      requires Valid() && inode > KERNEL_START
      ensures slot.Some? <==> inode in files[..]
      ensures slot.Some? ==> slot.value < FILE_HASH_SIZE && keys[slot.value] == inode
      ensures slot.Some? ==> values[slot.value] < FILE_TABLE_SIZE && files[values[slot.value]] == inode
    {
      FoundIffOpen(keys[..], values[..], files[..], inode);
      hide Inv, Probe;
      for i := 0 to FILE_HASH_SQRT + 1
        invariant forall k: nat :: k < i ==> keys[Probe(inode, k)] != inode
      {
        var index := Probe(inode, i);
        if keys[index] == inode { return Some(index); }
      }
      return None;
    }

    /** `hash_insert` for a descriptor just entered in `file_table`; false is the failed assertion at line 57. */
    method HashInsert(inode: nat, fd: nat) returns (ok: bool)
      requires keys != values && keys != files && values != files && files.Length == FILE_TABLE_SIZE
      requires fd < FILE_TABLE_SIZE && files[fd] == inode > KERNEL_START && inode !in files[..][fd := 0]
      requires Inv(keys[..], values[..], files[..][fd := 0])
      modifies keys, values
      ensures ok <==> exists i: nat :: i <= FILE_HASH_SQRT && old(keys[..])[Probe(inode, i)] == 0
      ensures ok ==> Valid()
    {
      ghost var ks, vs, fs := keys[..], values[..], files[..][fd := 0];
      assert fs[fd := inode] == files[..];
      hide Probe;
      for i := 0 to FILE_HASH_SQRT + 1
        invariant keys[..] == ks && values[..] == vs
        invariant forall k: nat :: k < i ==> ks[Probe(inode, k)] != 0
      {
        var index := Probe(inode, i);
        if keys[index] == 0 {
          InsertKeeps(ks, vs, fs, inode, fd, i);
          keys[index] := inode;
          values[index] := fd;
          assert keys[..] == ks[index := inode] && values[..] == vs[index := fd];
          assert ks[Probe(inode, i)] == 0;
          return true;
        }
      }
      return false;
    }

    /** `alloc_fd`; `None` is the failed assertion at line 57 or 111. */
    method AllocFd(inode: nat) returns (r: Option<nat>)
      requires Valid() && inode > KERNEL_START
      modifies keys, values, files
      ensures r.Some? ==> Valid() && r.value < FILE_TABLE_SIZE
      ensures inode in old(files[..]) ==> r.Some? && files[..] == old(files[..]) && files[r.value] == inode
      ensures inode !in old(files[..]) && r.Some? ==>
                IsFirstFree(old(files[..]), r.value) && files[..] == old(files[..])[r.value := inode]
      ensures r.None? <==>
        && inode !in old(files[..])
        && (0 !in old(files[..]) || forall i: nat :: i <= FILE_HASH_SQRT ==> old(keys[..])[Probe(inode, i)] != 0)
    {
      var slot := HashFindf(inode);
      if slot.Some? { return Some(values[slot.value]); }
      ghost var fs := files[..];
      for i := 0 to FILE_TABLE_SIZE
        invariant files[..] == fs && keys[..] == old(keys[..]) && values[..] == old(values[..]) && 0 !in fs[..i]
      {
        if files[i] == 0 {
          files[i] := inode;
          assert files[..] == fs[i := inode] && files[..][i := 0] == fs;
          var ok := HashInsert(inode, i);
          return if ok then Some(i) else None;
        }
        assert fs[..i + 1] == fs[..i] + [fs[i]];
      }
      assert fs[..FILE_TABLE_SIZE] == fs;
      return None;
    }

    /** `free_fd`; false is the failed assertion at line 91. */
    method FreeFd(fd: nat) returns (ok: bool)
      requires Valid() && fd < FILE_TABLE_SIZE
      modifies keys, files
      ensures Valid() && ok == (old(files[fd]) != 0) && files[..] == old(files[..])[fd := 0]
    {
      var inode := files[fd];
      if inode == 0 { return false; }
      assert FdOk(keys[..], values[..], files[..], fd);
      var slot := HashFindf(inode);
      DeleteKeeps(keys[..], values[..], files[..], fd, slot.value);
      files[fd] := 0;
      keys[slot.value] := 0;
      assert files[..] == old(files[..])[fd := 0] && keys[..] == old(keys[..])[slot.value := 0];
      return true;
    }

    /** `get_inode` */
    method GetInode(fd: nat) returns (inode: nat)
      requires Valid() && fd < FILE_TABLE_SIZE
      ensures inode == files[fd]
      ensures forall g: nat :: g < FILE_TABLE_SIZE && inode != 0 && files[g] == inode ==> g == fd
    {
      inode := files[fd];
      forall g: nat | g < FILE_TABLE_SIZE && inode != 0 && files[g] == inode ensures g == fd {
        OneDescriptor(keys[..], values[..], files[..], g, fd);
      }
    }
  }

  ghost predicate IsFirstFree(files: seq<nat>, fd: nat) {
    fd < |files| && files[fd] == 0 && forall g: nat :: g < fd ==> files[g] != 0
  }

  lemma EmptyInv(keys: seq<nat>, values: seq<nat>, files: seq<nat>)
    requires |keys| == |values| == FILE_HASH_SIZE && |files| == FILE_TABLE_SIZE
    requires forall j :: 0 <= j < FILE_HASH_SIZE ==> keys[j] == 0
    requires forall j :: 0 <= j < FILE_TABLE_SIZE ==> files[j] == 0
    ensures Inv(keys, values, files)
  {
  }
}
