/** Hard links in the easy-fs root directory: `Inode::linkat` and
    `Inode::unlinkat`, with the link-count bookkeeping of `link`/`unlink`
    and the rule that an inode whose count drops to 0 loses its data. */
module VfsLinks {
  import opened Machine
  import opened Vfs

  /** Every slot's inode number names a disk inode (free slots name inode 0,
      the root directory itself). */
  ghost predicate EntriesResolve(fs: FileSystem) {
    forall i :: 0 <= i < |fs.entries| ==> fs.entries[i].inodeNumber in fs.inodes
  }

  /** A syscall-style result code with the file system after the call. */
  datatype LinkResult = LinkResult(ret: Isize, fs: FileSystem)

  /** `Inode::link` on inode `id`: its link count grows by one (wrapping `u32`). */
  function Link(inodes: map<nat, DiskInode>, id: nat): (m: map<nat, DiskInode>)
    requires id in inodes
    ensures m.Keys == inodes.Keys
    ensures m[id] == inodes[id].(nlink := WrappingIncU32(inodes[id].nlink))
    ensures forall j :: j in inodes && j != id ==> m[j] == inodes[j]
  {
    inodes[id := inodes[id].(nlink := WrappingIncU32(inodes[id].nlink))]
  }

  /** `Inode::linkat` exactly as written: when `oldName` resolves, a slot
      `(newName, id)` is added, whether or not `newName` already names a
      slot, and inode `id` gains a link; if `add_new_entry` had to append
      the slot, the root grows with the blocks `grown`. When `oldName` does
      not resolve, -1 and nothing changes. */
  function LinkatAsWritten(fs: FileSystem, oldName: string, newName: string, grown: seq<nat>): (r: LinkResult)
    requires 0 in fs.inodes && EntriesResolve(fs)
    ensures FindInodeId(fs.entries, oldName).None? ==> r == LinkResult(-1, fs)
    ensures FindInodeId(fs.entries, oldName).Some? ==>
      var id := FindInodeId(fs.entries, oldName).value;
      var grownFs := GrowRoot(fs, grown);
      && r.ret == 0
      && r.fs.entries == InsertEntry(fs.entries, newName, id)
      && r.fs.inodes == Link(grownFs.inodes, id)
      && r.fs.freeData == grownFs.freeData
  {
    match FindInodeId(fs.entries, oldName)
    case None => LinkResult(-1, fs)
    case Some(id) =>
      var grownFs := GrowRoot(fs, grown);
      var entries := InsertEntry(fs.entries, newName, id);
      LinkResult(0, FileSystem(entries, Link(grownFs.inodes, id), grownFs.freeData))
  }

  /** `Inode::linkat` with the checks it evidently needs: an `oldName` that
      resolves to the root directory (inode 0), which an empty name does
      through any freed slot, and a `newName` that already names a slot are
      both refused with -1 like a missing `oldName`; otherwise it behaves
      as written. The root's link count never changes. */
  function Linkat(fs: FileSystem, oldName: string, newName: string, grown: seq<nat>): (r: LinkResult)
    requires 0 in fs.inodes && EntriesResolve(fs)
    ensures || FindInodeId(fs.entries, oldName).None?
            || FindInodeId(fs.entries, oldName) == Some(0)
            || FindInodeId(fs.entries, newName).Some?
            ==> r == LinkResult(-1, fs)
    ensures && FindInodeId(fs.entries, oldName).Some?
            && FindInodeId(fs.entries, oldName).value != 0
            && FindInodeId(fs.entries, newName).None?
            ==> r == LinkatAsWritten(fs, oldName, newName, grown) && r.ret == 0
    ensures 0 in r.fs.inodes && r.fs.inodes[0].nlink == fs.inodes[0].nlink
  {
    if FindInodeId(fs.entries, oldName) == Some(0) then LinkResult(-1, fs)
    else if FindInodeId(fs.entries, newName).Some? && FindInodeId(fs.entries, oldName).Some? then
      LinkResult(-1, fs)
    else LinkatAsWritten(fs, oldName, newName, grown)
  }

  /** After a successful link to a fresh name, the new name resolves to the
      same inode as the old one, the old name still does, and the inode
      has gained a link. */
  lemma LinkatThenFind(fs: FileSystem, oldName: string, newName: string, grown: seq<nat>)
    requires 0 in fs.inodes && EntriesResolve(fs)
    requires FindInodeId(fs.entries, oldName).Some? && FindInodeId(fs.entries, newName).None?
    requires FindInodeId(fs.entries, oldName).value != 0
    ensures var r := Linkat(fs, oldName, newName, grown);
      var id := FindInodeId(fs.entries, oldName).value;
      && r.ret == 0
      && FindInodeId(r.fs.entries, newName) == Some(id)
      && FindInodeId(r.fs.entries, oldName) == Some(id)
      && r.fs.inodes[id].nlink == WrappingIncU32(fs.inodes[id].nlink)
  {
    var id := FindInodeId(fs.entries, oldName).value;
    InsertEntryFindNew(fs.entries, newName, id);
    InsertEntryFindOther(fs.entries, newName, id, oldName);
  }

  /** Every slot named `name` overwritten with zeros. */
  function ZeroNamed(entries: seq<DirEntry>, name: string): (es: seq<DirEntry>)
    ensures |es| == |entries|
    ensures forall i :: 0 <= i < |entries| && entries[i].name == name ==> es[i] == EMPTY_ENTRY
    ensures forall i :: 0 <= i < |entries| && entries[i].name != name ==> es[i] == entries[i]
  {
    seq(|entries|, i requires 0 <= i < |entries| =>
      if entries[i].name == name then EMPTY_ENTRY else entries[i])
  }

  /** `Inode::unlink` on inode `id` followed by `unlinkat`'s clearing rule:
      the link count drops by one (wrapping `u32`); if it reaches 0 the
      inode's data is cleared and its blocks freed. The inode number
      itself stays allocated. */
  function Unlink(fs: FileSystem, id: nat): (fs': FileSystem)
    requires id in fs.inodes
    ensures fs'.entries == fs.entries
    ensures fs'.inodes.Keys == fs.inodes.Keys
    ensures fs'.inodes[id].nlink == WrappingDecU32(fs.inodes[id].nlink)
    ensures fs'.inodes[id].kind == fs.inodes[id].kind
    ensures fs'.inodes[id].nlink == 0 ==>
      && fs'.inodes[id].size == 0 && fs'.inodes[id].dataBlocks == []
      && fs'.freeData == fs.freeData + set b | b in fs.inodes[id].dataBlocks
    ensures fs'.inodes[id].nlink != 0 ==>
      && fs'.inodes[id].size == fs.inodes[id].size
      && fs'.inodes[id].dataBlocks == fs.inodes[id].dataBlocks
      && fs'.freeData == fs.freeData
    ensures forall j :: j in fs.inodes && j != id ==> fs'.inodes[j] == fs.inodes[j]
  {
    var d := fs.inodes[id].(nlink := WrappingDecU32(fs.inodes[id].nlink));
    if d.nlink == 0 then
      var c := ClearData(d, fs.freeData);
      FileSystem(fs.entries, fs.inodes[id := c.inode], c.freeData)
    else FileSystem(fs.entries, fs.inodes[id := d], fs.freeData)
  }

  /** Dropping the last link is clearing: `unlink` of an inode with one
      link leaves the same file system as `clear` of that inode with its
      count already at 0. */
  lemma UnlinkLastIsClear(fs: FileSystem, id: nat)
    requires id in fs.inodes
    requires fs.inodes[id].nlink == 1
    ensures Unlink(fs, id) == Clear(fs.(inodes := fs.inodes[id := fs.inodes[id].(nlink := 0)]), id)
  {
  }

  /** `Inode::unlinkat` exactly as written: when `name` resolves to inode
      `id`, every slot named `name` is zeroed, `id` loses one link (and its
      data when none is left), and 0 is returned; otherwise -1 and nothing
      changes. A zeroed slot's name is empty and its inode number 0, so an
      empty `name` resolves, through any freed slot, to the root directory
      itself. */
  function UnlinkatAsWritten(fs: FileSystem, name: string): (r: LinkResult)
    requires EntriesResolve(fs)
    ensures FindInodeId(fs.entries, name).None? ==> r == LinkResult(-1, fs)
    ensures FindInodeId(fs.entries, name).Some? ==>
      && r.ret == 0
      && r.fs == Unlink(fs.(entries := ZeroNamed(fs.entries, name)), FindInodeId(fs.entries, name).value)
  {
    match FindInodeId(fs.entries, name)
    case None => LinkResult(-1, fs)
    case Some(id) => LinkResult(0, Unlink(fs.(entries := ZeroNamed(fs.entries, name)), id))
  }

  /** `Inode::unlinkat` with the guard it evidently needs: a name that
      resolves to the root directory (inode 0) is refused with -1 like a
      missing one; otherwise it behaves as written. The root inode is
      never touched. */
  function Unlinkat(fs: FileSystem, name: string): (r: LinkResult)
    requires EntriesResolve(fs)
    ensures FindInodeId(fs.entries, name).None? || FindInodeId(fs.entries, name) == Some(0) ==>
      r == LinkResult(-1, fs)
    ensures FindInodeId(fs.entries, name).Some? && FindInodeId(fs.entries, name).value != 0 ==>
      r == UnlinkatAsWritten(fs, name) && r.ret == 0
    ensures 0 in fs.inodes ==> 0 in r.fs.inodes && r.fs.inodes[0] == fs.inodes[0]
  {
    if FindInodeId(fs.entries, name) == Some(0) then LinkResult(-1, fs)
    else UnlinkatAsWritten(fs, name)
  }

  /** After `unlinkat` of a non-empty name, the name no longer resolves and
      is no longer listed: always for the code as written, and whenever the
      corrected version reports success. (An empty name also matches every
      zeroed slot.) */
  lemma UnlinkatRemovesName(fs: FileSystem, name: string)
    requires EntriesResolve(fs)
    requires name != ""
    ensures FindInodeId(UnlinkatAsWritten(fs, name).fs.entries, name).None?
    ensures name !in LiveNames(UnlinkatAsWritten(fs, name).fs.entries)
    ensures Unlinkat(fs, name).ret == 0 ==>
      && FindInodeId(Unlinkat(fs, name).fs.entries, name).None?
      && name !in LiveNames(Unlinkat(fs, name).fs.entries)
  {
    var es := UnlinkatAsWritten(fs, name).fs.entries;
    forall i | 0 <= i < |es|
      ensures es[i].name != name
    {
      if FindInodeId(fs.entries, name).Some? {
        assert es == ZeroNamed(fs.entries, name);
      }
    }
    LiveNamesExactly(es, name);
  }
}
