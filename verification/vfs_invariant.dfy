/** The consistency invariant of the easy-fs root directory and its link
    counts, and its preservation by `create`, `linkat` and `unlinkat`.

    In a consistent directory the root (inode 0) is a directory with at
    least one link, free slots are all-zero, names of slots in use are
    non-empty and distinct, every slot names an existing inode, and every
    inode other than the root carries as many links as there are slots
    naming it. */
module VfsInvariant {
  import opened Machine
  import opened Vfs
  import opened VfsLinks

  /** Number of slots whose inode number is `id`. */
  function Refs(entries: seq<DirEntry>, id: nat): nat {
    if |entries| == 0 then 0
    else Refs(entries[..|entries| - 1], id) + (if entries[|entries| - 1].inodeNumber == id then 1 else 0)
  }

  /** The consistency invariant described above. */
  ghost predicate Valid(fs: FileSystem) {
    var es := fs.entries;
    && 0 in fs.inodes
    && fs.inodes[0].kind == Directory && fs.inodes[0].nlink >= 1
    && EntriesResolve(fs)
    && (forall i :: 0 <= i < |es| && !Live(es[i]) ==> es[i] == EMPTY_ENTRY)
    && (forall i :: 0 <= i < |es| && Live(es[i]) ==> es[i].name != "")
    && (forall i, j :: 0 <= i < j < |es| && Live(es[i]) && Live(es[j]) ==> es[i].name != es[j].name)
    && (forall id :: id in fs.inodes && id != 0 ==> fs.inodes[id].nlink == Refs(es, id))
  }

  // ------------------------------------------------------ counting slots

  lemma {:induction false} RefsBound(entries: seq<DirEntry>, id: nat)
    ensures Refs(entries, id) <= |entries|
  {
    if |entries| > 0 {
      RefsBound(entries[..|entries| - 1], id);
    }
  }

  lemma {:induction false} RefsAbsent(entries: seq<DirEntry>, id: nat)
    requires forall i :: 0 <= i < |entries| ==> entries[i].inodeNumber != id
    ensures Refs(entries, id) == 0
  {
    if |entries| > 0 {
      RefsAbsent(entries[..|entries| - 1], id);
    }
  }

  lemma {:induction false} RefsPresent(entries: seq<DirEntry>, id: nat, i: nat)
    requires i < |entries| && entries[i].inodeNumber == id
    ensures Refs(entries, id) >= 1
  {
    if i < |entries| - 1 {
      RefsPresent(entries[..|entries| - 1], id, i);
    }
  }

  /** Overwriting one slot moves one reference from the old inode to the new. */
  lemma {:induction false} RefsUpdate(entries: seq<DirEntry>, i: nat, e: DirEntry, id: nat)
    requires i < |entries|
    ensures Refs(entries[i := e], id)
         == Refs(entries, id) - (if entries[i].inodeNumber == id then 1 else 0)
                              + (if e.inodeNumber == id then 1 else 0)
  {
    var n := |entries|;
    var es := entries[i := e];
    if i == n - 1 {
      assert es[..n - 1] == entries[..n - 1];
    } else {
      assert es[..n - 1] == entries[..n - 1][i := e];
      RefsUpdate(entries[..n - 1], i, e, id);
    }
  }

  lemma RefsAppendEmpty(entries: seq<DirEntry>, id: nat)
    ensures Refs(entries + [EMPTY_ENTRY], id) == Refs(entries, id) + (if id == 0 then 1 else 0)
  {
    assert (entries + [EMPTY_ENTRY])[..|entries|] == entries;
  }

  // ------------------------------------------- the slot add_new_entry picks

  /** In a consistent directory the slot `add_new_entry` picks holds zeros,
      and inserting `(name, id)` there adds one reference to `id` and
      changes no other non-root inode's count. */
  lemma InsertEntryRefs(fs: FileSystem, name: string, id: nat, other: nat)
    requires Valid(fs)
    requires id < U32_MODULUS
    requires other != 0
    ensures Refs(InsertEntry(fs.entries, name, id), other)
         == Refs(fs.entries, other) + (if other == id then 1 else 0)
  {
    var slot := AddNewEntry(fs.entries);
    if FirstFree(fs.entries).Some? {
      assert slot.entries == fs.entries;
      assert fs.entries[slot.index] == EMPTY_ENTRY;
    } else {
      assert slot.entries == fs.entries + [EMPTY_ENTRY];
      RefsAppendEmpty(fs.entries, other);
    }
    assert InsertEntry(fs.entries, name, id) == slot.entries[slot.index := DirEntry(name, id)];
    RefsUpdate(slot.entries, slot.index, DirEntry(name, id), other);
  }

  /** In a consistent directory, inserting a name that is non-empty and not
      yet present keeps the slot-shape conditions of the invariant. */
  lemma InsertEntryShape(fs: FileSystem, name: string, id: U32)
    requires Valid(fs)
    requires name != "" && id != 0
    requires FindInodeId(fs.entries, name).None?
    ensures var es := InsertEntry(fs.entries, name, id);
      && (forall i :: 0 <= i < |es| && !Live(es[i]) ==> es[i] == EMPTY_ENTRY)
      && (forall i :: 0 <= i < |es| && Live(es[i]) ==> es[i].name != "")
      && (forall i, j :: 0 <= i < j < |es| && Live(es[i]) && Live(es[j]) ==> es[i].name != es[j].name)
      && (forall i :: 0 <= i < |es| ==>
            es[i] == DirEntry(name, id) || es[i] in fs.entries || es[i] == EMPTY_ENTRY)
  {
    var slot := AddNewEntry(fs.entries);
    var es := InsertEntry(fs.entries, name, id);
    var old_ := fs.entries;
    forall i | 0 <= i < |es| && i != slot.index
      ensures es[i] == EMPTY_ENTRY || (i < |old_| && es[i] == old_[i])
    {
      assert slot.entries[..|old_|] == old_;
    }
    forall i, j | 0 <= i < j < |es| && Live(es[i]) && Live(es[j])
      ensures es[i].name != es[j].name
    {
      if i == slot.index {
        assert es[j] == old_[j];
      } else if j == slot.index {
        assert es[i] == old_[i];
      }
    }
  }

  // ------------------------------------------------------- preservation

  /** `create` of a non-empty name with an inode number no inode carries
      keeps the directory consistent. */
  lemma CreatePreservesValid(fs: FileSystem, name: string, freshId: U32, grown: seq<nat>)
    requires Valid(fs)
    requires name != ""
    requires freshId !in fs.inodes
    ensures Valid(Create(fs, name, freshId, grown).fs)
  {
    if FindInodeId(fs.entries, name).None? {
      var fs' := Create(fs, name, freshId, grown).fs;
      InsertEntryShape(fs, name, freshId);
      forall id | id in fs'.inodes && id != 0
        ensures fs'.inodes[id].nlink == Refs(fs'.entries, id)
      {
        InsertEntryRefs(fs, name, freshId, id);
        if id == freshId {
          RefsAbsent(fs.entries, freshId);
        }
      }
    }
  }

  /** In a consistent directory a non-empty name resolves, if at all, to an
      in-use slot naming a non-root inode. */
  lemma FindLive(fs: FileSystem, name: string)
    requires Valid(fs)
    requires name != ""
    requires FindInodeId(fs.entries, name).Some?
    ensures FindIndex(fs.entries, name).Some?
    ensures Live(fs.entries[FindIndex(fs.entries, name).value])
    ensures FindInodeId(fs.entries, name).value != 0
    ensures FindInodeId(fs.entries, name).value in fs.inodes
  {
  }

  /** The corrected `linkat` to a non-empty new name keeps the directory
      consistent, whatever the old name, as long as the directory has fewer
      slots than a `u32` link count can count. */
  lemma LinkatPreservesValid(fs: FileSystem, oldName: string, newName: string, grown: seq<nat>)
    requires Valid(fs)
    requires newName != ""
    requires |fs.entries| + 1 < U32_MODULUS
    ensures Valid(Linkat(fs, oldName, newName, grown).fs)
  {
    if && FindInodeId(fs.entries, oldName).Some?
       && FindInodeId(fs.entries, oldName).value != 0
       && FindInodeId(fs.entries, newName).None?
    {
      ResolvesOffRoot(fs, oldName);
      FindLive(fs, oldName);
      var id := FindInodeId(fs.entries, oldName).value;
      var fs' := Linkat(fs, oldName, newName, grown).fs;
      InsertEntryShape(fs, newName, id);
      RefsBound(fs.entries, id);
      forall other | other in fs'.inodes && other != 0
        ensures fs'.inodes[other].nlink == Refs(fs'.entries, other)
      {
        InsertEntryRefs(fs, newName, id, other);
      }
    }
  }

  /** In a consistent directory, zeroing every slot named `name` zeroes just
      the one in-use slot it resolves to. */
  lemma ZeroNamedSingle(fs: FileSystem, name: string)
    requires Valid(fs)
    requires name != ""
    requires FindIndex(fs.entries, name).Some?
    ensures ZeroNamed(fs.entries, name) == fs.entries[FindIndex(fs.entries, name).value := EMPTY_ENTRY]
  {
    var i := FindIndex(fs.entries, name).value;
    var es := fs.entries;
    assert Live(es[i]);
    forall j | 0 <= j < |es| && j != i
      ensures es[j].name != name
    {
      if Live(es[j]) {
        if j < i {
        } else {
          assert es[i].name != es[j].name;
        }
      }
    }
  }

  /** A name that resolves to a non-root inode in a consistent directory is
      the non-empty name of an in-use slot. */
  lemma ResolvesOffRoot(fs: FileSystem, name: string)
    requires Valid(fs)
    requires FindInodeId(fs.entries, name).Some? && FindInodeId(fs.entries, name).value != 0
    ensures name != ""
  {
    var i := FindIndex(fs.entries, name).value;
    assert fs.entries[i].inodeNumber == FindInodeId(fs.entries, name).value;
    assert Live(fs.entries[i]);
  }

  /** The corrected `unlinkat` keeps the directory consistent for every
      name; in particular an inode loses its data exactly when its last
      slot goes. */
  lemma UnlinkatPreservesValid(fs: FileSystem, name: string)
    requires Valid(fs)
    ensures Valid(Unlinkat(fs, name).fs)
  {
    if FindInodeId(fs.entries, name).Some? && FindInodeId(fs.entries, name).value != 0 {
      ResolvesOffRoot(fs, name);
      FindLive(fs, name);
      var i := FindIndex(fs.entries, name).value;
      var id := FindInodeId(fs.entries, name).value;
      ZeroNamedSingle(fs, name);
      var es' := fs.entries[i := EMPTY_ENTRY];
      var fs' := Unlinkat(fs, name).fs;
      assert fs'.entries == es';
      RefsPresent(fs.entries, id, i);
      forall other | other in fs'.inodes && other != 0
        ensures fs'.inodes[other].nlink == Refs(es', other)
      {
        RefsUpdate(fs.entries, i, EMPTY_ENTRY, other);
      }
      forall a, b | 0 <= a < b < |es'| && Live(es'[a]) && Live(es'[b])
        ensures es'[a].name != es'[b].name
      {
        assert es'[a] == fs.entries[a] && es'[b] == fs.entries[b];
      }
    }
  }

  /** Unlinking the only name of a file frees its data. */
  lemma UnlinkLastNameFreesData(fs: FileSystem, name: string)
    requires Valid(fs)
    requires name != ""
    requires FindInodeId(fs.entries, name).Some?
    requires Refs(fs.entries, FindInodeId(fs.entries, name).value) == 1
    ensures var id := FindInodeId(fs.entries, name).value;
      var fs' := Unlinkat(fs, name).fs;
      && id in fs'.inodes
      && fs'.inodes[id].nlink == 0
      && fs'.inodes[id].size == 0
      && (forall b :: b in fs.inodes[id].dataBlocks ==> b in fs'.freeData)
  {
    FindLive(fs, name);
  }

  // ----------------------------------------- linkat onto an existing name

  /** A root holding one file "a" (inode 1, one data block 7) in one
      32-byte slot; the root's own data lives in block 3. */
  function OneFileFs(): FileSystem {
    FileSystem(
      [DirEntry("a", 1)],
      map[0 := DiskInode(Directory, 32, [3], 1), 1 := DiskInode(File, 512, [7], 1)],
      {})
  }

  /** The file system after linking "a" to "a": two slots named "a", the
      root grown to two slots (still within its one block, so the allocator
      hands out none), and two links on inode 1. */
  function DuplicateFs(): FileSystem {
    FileSystem(
      [DirEntry("a", 1), DirEntry("a", 1)],
      map[0 := DiskInode(Directory, 64, [3], 1), 1 := DiskInode(File, 512, [7], 2)],
      {})
  }

  /** The file system after unlinking "a" from `DuplicateFs`. */
  function LeakedFs(): FileSystem {
    FileSystem(
      [EMPTY_ENTRY, EMPTY_ENTRY],
      map[0 := DiskInode(Directory, 64, [3], 1), 1 := DiskInode(File, 512, [7], 1)],
      {})
  }

  lemma OneFileFsValid()
    ensures Valid(OneFileFs())
  {
    assert OneFileFs().entries[..0] == [];
  }

  lemma LinkatAsWrittenDuplicates()
    ensures EntriesResolve(OneFileFs())
    ensures LinkatAsWritten(OneFileFs(), "a", "a", []) == LinkResult(0, DuplicateFs())
  {
    var fs0 := OneFileFs();
    assert FindIndex(fs0.entries, "a") == Some(0);
    assert FirstFree(fs0.entries).None?;
    assert AppendedSize(fs0.entries) == 64;
    assert GrowRoot(fs0, []).inodes[0] == DiskInode(Directory, 64, [3], 1);
    assert InsertEntry(fs0.entries, "a", 1) == DuplicateFs().entries;
    assert Link(GrowRoot(fs0, []).inodes, 1) == DuplicateFs().inodes;
  }

  lemma UnlinkatDuplicate()
    ensures EntriesResolve(DuplicateFs())
    ensures Unlinkat(DuplicateFs(), "a") == LinkResult(0, LeakedFs())
  {
    var fs1 := DuplicateFs();
    assert FindIndex(fs1.entries, "a") == Some(0);
    assert ZeroNamed(fs1.entries, "a") == LeakedFs().entries;
  }

  lemma LeakedFsUnnamed()
    ensures LiveNames(LeakedFs().entries) == []
  {
    var es := LeakedFs().entries;
    assert es[..1] == [EMPTY_ENTRY];
    assert [EMPTY_ENTRY][..0] == [];
  }

  /** `linkat` as written, given a new name that already exists, breaks the
      invariant: linking "a" to "a" leaves two slots named "a" and a link
      count of 2; unlinking "a" then zeroes both slots but drops the count
      only to 1, so the file has no name left yet its data block is never
      freed. The corrected `Linkat` refuses the link. */
  lemma LinkatExistingNameLeaks()
    ensures Valid(OneFileFs())
    ensures var fs1 := LinkatAsWritten(OneFileFs(), "a", "a", []).fs;
      && LinkatAsWritten(OneFileFs(), "a", "a", []).ret == 0
      && !Valid(fs1)
      && EntriesResolve(fs1)
      && var fs2 := Unlinkat(fs1, "a").fs;
         && LiveNames(fs2.entries) == []
         && fs2.inodes[1].nlink == 1
         && fs2.inodes[1].dataBlocks == [7]
         && 7 !in fs2.freeData
    ensures Linkat(OneFileFs(), "a", "a", []) == LinkResult(-1, OneFileFs())
  {
    OneFileFsValid();
    LinkatAsWrittenDuplicates();
    UnlinkatDuplicate();
    LeakedFsUnnamed();
    var es := DuplicateFs().entries;
    assert Live(es[0]) && Live(es[1]) && es[0].name == es[1].name;
    assert FindIndex(OneFileFs().entries, "a") == Some(0);
  }

  // ------------------------------------------- unlinkat of the empty name

  /** A root whose second slot has been freed: file "a" (inode 1, data
      block 7) in the first slot, a zeroed second slot; the root's own data
      lives in block 3. */
  function FreedSlotFs(): FileSystem {
    FileSystem(
      [DirEntry("a", 1), EMPTY_ENTRY],
      map[0 := DiskInode(Directory, 64, [3], 1), 1 := DiskInode(File, 512, [7], 1)],
      {})
  }

  lemma FreedSlotFsValid()
    ensures Valid(FreedSlotFs())
  {
    var es := FreedSlotFs().entries;
    assert es[..1] == [DirEntry("a", 1)];
    assert es[..1][..0] == [];
  }

  /** `unlinkat` as written, given the empty name, breaks the invariant:
      the name matches the zeroed slot, which names inode 0, so the root
      directory itself loses its only link and then its data, and 0 is
      returned. The corrected `Unlinkat` refuses the call. */
  lemma UnlinkatEmptyNameClearsRoot()
    ensures Valid(FreedSlotFs())
    ensures EntriesResolve(FreedSlotFs())
    ensures var r := UnlinkatAsWritten(FreedSlotFs(), "");
      && r.ret == 0
      && r.fs.inodes[0].nlink == 0
      && r.fs.inodes[0].size == 0
      && r.fs.inodes[0].dataBlocks == []
      && 3 in r.fs.freeData
      && !Valid(r.fs)
    ensures Unlinkat(FreedSlotFs(), "") == LinkResult(-1, FreedSlotFs())
  {
    FreedSlotFsValid();
    var es := FreedSlotFs().entries;
    assert es[0].name != "";
    assert FindIndex(es, "") == Some(1);
    assert FindInodeId(es, "") == Some(0);
  }

  // --------------------------------------------- linkat from the empty name

  /** `linkat` as written, given the empty old name, breaks the invariant:
      the name matches the zeroed slot, which names inode 0, so the new
      name is written into that slot with inode number 0 (a slot that is
      neither free nor in use) and resolves to the root directory, whose
      link count grows to 2. The corrected `Linkat` refuses the call. */
  lemma LinkatEmptyNameLinksRoot()
    ensures Valid(FreedSlotFs())
    ensures var r := LinkatAsWritten(FreedSlotFs(), "", "b", []);
      && r.ret == 0
      && r.fs.entries == [DirEntry("a", 1), DirEntry("b", 0)]
      && FindInodeId(r.fs.entries, "b") == Some(0)
      && r.fs.inodes[0].nlink == 2
      && !Valid(r.fs)
    ensures Linkat(FreedSlotFs(), "", "b", []) == LinkResult(-1, FreedSlotFs())
  {
    FreedSlotFsValid();
    var fs := FreedSlotFs();
    var es := fs.entries;
    assert es[0].name != "";
    assert FindIndex(es, "") == Some(1);
    assert FindInodeId(es, "") == Some(0);
    assert FirstFree(es) == Some(1);
    assert GrowRoot(fs, []) == fs;
    assert InsertEntry(es, "b", 0) == [DirEntry("a", 1), DirEntry("b", 0)];
    var es' := [DirEntry("a", 1), DirEntry("b", 0)];
    assert FindIndex(es', "b") == Some(1);
    assert !Live(es'[1]) && es'[1] != EMPTY_ENTRY;
  }
}
