/** The virtual-filesystem layer of easy-fs over its single (root)
    directory: name lookup, entry allocation, `create`, `ls`, hard links
    (`linkat`/`unlinkat`) and their link-count bookkeeping, `clear`,
    `increase_size`'s guard, and `stat`.

    The directory's content is its sequence of entries, slot by slot. The
    root's byte size, from which the source derives the slot count, is
    kept as a separate field: it grows when `add_new_entry` appends a slot,
    but nothing ties it to the length of the sequence. Disk inodes are a
    map from inode number to the fields this layer reads and writes; the
    root directory is inode 0. Block-level storage and the block cache are
    not modelled; the data-block free list is a set of block ids. The
    allocators are parameters: the inode allocator supplies an unused inode
    number, and the data allocator the blocks a growing inode receives. */
module Vfs {
  import opened Machine

  /** `DiskInodeType`. */
  datatype DiskInodeType = File | Directory

  /** One directory slot: a name and an inode number. Slot contents with
      inode number 0 are free. */
  datatype DirEntry = DirEntry(name: string, inodeNumber: U32)

  /** A slot overwritten with `DIRENT_SZ` zero bytes: empty name, inode 0. */
  const EMPTY_ENTRY: DirEntry := DirEntry("", 0)

  /** The fields of a disk inode this layer uses. `dataBlocks` lists every
      block the inode owns (data and index blocks alike). */
  datatype DiskInode = DiskInode(kind: DiskInodeType, size: U32, dataBlocks: seq<nat>, nlink: U32)

  /** Hard-link count a freshly initialised inode starts with. */
  const INITIAL_NLINK: U32 := 1

  /** A file inode as `DiskInode::initialize(DiskInodeType::File)` leaves it. */
  const NEW_FILE_INODE: DiskInode := DiskInode(File, 0, [], INITIAL_NLINK)

  /** The root directory's slots, every disk inode, and the free data blocks. */
  datatype FileSystem = FileSystem(entries: seq<DirEntry>, inodes: map<nat, DiskInode>, freeData: set<nat>)

  /** Bytes one directory slot occupies on disk. */
  const DIRENT_SZ: nat := 32

  /** The root's byte size once a slot is appended to `entries`: the new
      slot count times `DIRENT_SZ`, cast to `u32`. */
  function AppendedSize(entries: seq<DirEntry>): U32 {
    ((|entries| + 1) * DIRENT_SZ) % U32_MODULUS
  }

  // ------------------------------------------------------------ lookup

  /** Index of the first slot whose name is `name`, if any. Every slot is
      scanned, free ones included. */
  function FindIndex(entries: seq<DirEntry>, name: string): (r: Option<nat>)
    ensures r.None? <==> forall i :: 0 <= i < |entries| ==> entries[i].name != name
    ensures r.Some? ==>
      && r.value < |entries|
      && entries[r.value].name == name
      && forall j :: 0 <= j < r.value ==> entries[j].name != name
  {
    if |entries| == 0 then None
    else if entries[0].name == name then Some(0)
    else match FindIndex(entries[1..], name)
      case None => None
      case Some(i) => Some(i + 1)
  }

  /** `Inode::find_inode_id`: the inode number in the first slot named
      `name`, or `None` when no slot has that name. */
  function FindInodeId(entries: seq<DirEntry>, name: string): (r: Option<U32>)
    ensures r.None? <==> forall i :: 0 <= i < |entries| ==> entries[i].name != name
    ensures r.Some? ==>
      exists i :: 0 <= i < |entries| && entries[i].name == name && entries[i].inodeNumber == r.value
        && forall j :: 0 <= j < i ==> entries[j].name != name
  {
    match FindIndex(entries, name)
    case None => None
    case Some(i) => Some(entries[i].inodeNumber)
  }

  // ------------------------------------------------------ slot allocation

  /** Index of the first free slot (inode number 0), if any. */
  function FirstFree(entries: seq<DirEntry>): (r: Option<nat>)
    ensures r.None? <==> forall i :: 0 <= i < |entries| ==> entries[i].inodeNumber != 0
    ensures r.Some? ==>
      && r.value < |entries|
      && entries[r.value].inodeNumber == 0
      && forall j :: 0 <= j < r.value ==> entries[j].inodeNumber != 0
  {
    if |entries| == 0 then None
    else if entries[0].inodeNumber == 0 then Some(0)
    else match FirstFree(entries[1..])
      case None => None
      case Some(i) => Some(i + 1)
  }

  /** The slot `add_new_entry` picked and the directory after it. */
  datatype NewSlot = NewSlot(index: nat, entries: seq<DirEntry>)

  /** `Inode::add_new_entry`: reuse the first free slot, leaving the
      directory as it is; with no free slot, grow the directory by one
      slot and use that one. */
  function AddNewEntry(entries: seq<DirEntry>): (r: NewSlot)
    ensures r.index < |r.entries|
    ensures |entries| <= |r.entries| && r.entries[..|entries|] == entries
    ensures FirstFree(entries).Some? ==> r.index == FirstFree(entries).value && r.entries == entries
    ensures FirstFree(entries).None? ==> r.index == |entries| && |r.entries| == |entries| + 1
    ensures r.entries[r.index].inodeNumber == 0
  {
    match FirstFree(entries)
    case Some(i) => NewSlot(i, entries)
    case None => NewSlot(|entries|, entries + [EMPTY_ENTRY])
  }

  /** Writing `(name, id)` into the slot `add_new_entry` picks. */
  function InsertEntry(entries: seq<DirEntry>, name: string, id: U32): (es: seq<DirEntry>)
    ensures var slot := AddNewEntry(entries);
      && |es| == |slot.entries|
      && es[slot.index] == DirEntry(name, id)
      && forall j :: 0 <= j < |es| && j != slot.index ==> es[j] == slot.entries[j]
  {
    var slot := AddNewEntry(entries);
    slot.entries[slot.index := DirEntry(name, id)]
  }

  // --------------------------------------------------------------- create

  /** Result of an operation that may produce an inode number. */
  datatype Created = Created(inode: Option<U32>, fs: FileSystem)

  /** `Inode::create`: refuses (and allocates nothing) when some slot already
      has the name; otherwise initialises inode `freshId` as an empty file,
      lets `add_new_entry` pick a slot (growing the root with the blocks
      `grown` when it appends one) and records `(name, freshId)` there. */
  function Create(fs: FileSystem, name: string, freshId: U32, grown: seq<nat>): (r: Created)
    requires 0 in fs.inodes
    ensures FindInodeId(fs.entries, name).Some? ==> r == Created(None, fs)
    ensures FindInodeId(fs.entries, name).None? ==>
      && r.inode == Some(freshId)
      && r.fs.entries == InsertEntry(fs.entries, name, freshId)
      && r.fs.inodes.Keys == fs.inodes.Keys + {freshId}
      && (freshId != 0 ==> r.fs.inodes[freshId] == NEW_FILE_INODE)
      && (forall j :: j in fs.inodes && j != 0 && j != freshId ==> r.fs.inodes[j] == fs.inodes[j])
      && var root := fs.inodes[freshId := NEW_FILE_INODE][0];
         && (FirstFree(fs.entries).Some? ==> r.fs.inodes[0] == root && r.fs.freeData == fs.freeData)
         && (FirstFree(fs.entries).None? ==>
               r.fs.inodes[0] == IncreaseSize(root, AppendedSize(fs.entries), grown, fs.freeData).inode
               && r.fs.freeData == IncreaseSize(root, AppendedSize(fs.entries), grown, fs.freeData).freeData)
  {
    if FindInodeId(fs.entries, name).Some? then Created(None, fs)
    else
      var grownFs := GrowRoot(fs.(inodes := fs.inodes[freshId := NEW_FILE_INODE]), grown);
      Created(Some(freshId), grownFs.(entries := InsertEntry(fs.entries, name, freshId)))
  }

  /** A name no slot carried resolves, after `InsertEntry`, to the inode
      just recorded under it. */
  lemma InsertEntryFindNew(entries: seq<DirEntry>, name: string, id: U32)
    requires FindInodeId(entries, name).None?
    ensures FindInodeId(InsertEntry(entries, name, id), name) == Some(id)
  {
    var slot := AddNewEntry(entries);
    var es := InsertEntry(entries, name, id);
    forall j | 0 <= j < slot.index
      ensures es[j].name != name
    {
      assert es[j] == slot.entries[j] == entries[j];
    }
    assert es[slot.index].name == name;
  }

  /** The first slot carrying a name is where the lookup stops. */
  lemma FindIndexFirst(entries: seq<DirEntry>, name: string, i: nat)
    requires i < |entries| && entries[i].name == name
    requires forall j :: 0 <= j < i ==> entries[j].name != name
    ensures FindIndex(entries, name) == Some(i)
  {
  }

  /** `InsertEntry` overwrites only a free slot, so a different name whose
      first slot is in use resolves as before. */
  lemma InsertEntryFindOther(entries: seq<DirEntry>, name: string, id: U32, other: string)
    requires other != name
    requires FindIndex(entries, other).Some? && entries[FindIndex(entries, other).value].inodeNumber != 0
    ensures FindInodeId(InsertEntry(entries, name, id), other) == FindInodeId(entries, other)
  {
    var slot := AddNewEntry(entries);
    var es := InsertEntry(entries, name, id);
    var i := FindIndex(entries, other).value;
    var prefix := slot.entries[..|entries|];
    assert prefix == entries;
    assert slot.entries[i] == prefix[i];
    assert es[i] == entries[i];
    forall j | 0 <= j < i
      ensures es[j].name != other
    {
      if j != slot.index {
        assert es[j] == slot.entries[j] == prefix[j];
      }
    }
    FindIndexFirst(es, other, i);
  }

  /** After a successful `create` the name resolves to the new inode, which
      is a file with one link; unless the allocator handed out the root's
      own number, the file is empty. */
  lemma CreateThenFind(fs: FileSystem, name: string, freshId: U32, grown: seq<nat>)
    requires 0 in fs.inodes
    requires FindInodeId(fs.entries, name).None?
    ensures FindInodeId(Create(fs, name, freshId, grown).fs.entries, name) == Some(freshId)
    ensures Create(fs, name, freshId, grown).fs.inodes[freshId].kind == File
    ensures Create(fs, name, freshId, grown).fs.inodes[freshId].nlink == INITIAL_NLINK
    ensures freshId != 0 ==> Create(fs, name, freshId, grown).fs.inodes[freshId].size == 0
  {
    InsertEntryFindNew(fs.entries, name, freshId);
  }

  // ------------------------------------------------------------------- ls

  /** A slot is in use when its inode number is not 0. */
  predicate Live(e: DirEntry) {
    e.inodeNumber != 0
  }

  /** Names of the slots in use, in slot order. */
  function LiveNames(entries: seq<DirEntry>): seq<string> {
    if |entries| == 0 then []
    else LiveNames(entries[..|entries| - 1])
         + (if Live(entries[|entries| - 1]) then [entries[|entries| - 1].name] else [])
  }

  /** `Inode::ls`: walks the slots in order, collecting the names of those in
      use. */
  method Ls(entries: seq<DirEntry>) returns (names: seq<string>)
    ensures names == LiveNames(entries)
  {
    names := [];
    var i := 0;
    while i < |entries|
      invariant 0 <= i <= |entries|
      invariant names == LiveNames(entries[..i])
    {
      assert entries[..i + 1] == entries[..i] + [entries[i]];
      LiveNamesAppend(entries[..i], [entries[i]]);
      assert [entries[i]][..0] == [];
      if entries[i].inodeNumber != 0 {
        names := names + [entries[i].name];
      }
      i := i + 1;
    }
    assert entries[..i] == entries;
  }

  /** A name is listed exactly when some slot in use carries it, and there
      are as many names as slots in use. */
  lemma {:induction false} LiveNamesExactly(entries: seq<DirEntry>, name: string)
    ensures name in LiveNames(entries) <==>
      exists i :: 0 <= i < |entries| && Live(entries[i]) && entries[i].name == name
    ensures |LiveNames(entries)| <= |entries|
  {
    if |entries| > 0 {
      var init := entries[..|entries| - 1];
      LiveNamesExactly(init, name);
      if name in LiveNames(entries) && name !in LiveNames(init) {
        assert Live(entries[|entries| - 1]) && entries[|entries| - 1].name == name;
      }
      if exists i :: 0 <= i < |entries| && Live(entries[i]) && entries[i].name == name {
        var i :| 0 <= i < |entries| && Live(entries[i]) && entries[i].name == name;
        if i < |entries| - 1 {
          assert init[i] == entries[i];
        }
      }
    }
  }

  /** Listing distributes over concatenation: slot order is kept. */
  lemma {:induction false} LiveNamesAppend(a: seq<DirEntry>, b: seq<DirEntry>)
    ensures LiveNames(a + b) == LiveNames(a) + LiveNames(b)
    decreases |b|
  {
    if |b| == 0 {
      assert a + b == a;
    } else {
      var b' := b[..|b| - 1];
      assert (a + b)[..|a + b| - 1] == a + b';
      LiveNamesAppend(a, b');
    }
  }

  // ------------------------------------------------------- clear, growth

  /** Result of freeing an inode's data: the inode and the free-block set. */
  datatype Cleared = Cleared(inode: DiskInode, freeData: set<nat>)

  /** The data-clearing step of `Inode::clear` (also run by `unlinkat`):
      the size drops to 0 and every block the inode owned is freed. */
  function ClearData(inode: DiskInode, freeData: set<nat>): (r: Cleared)
    ensures r.inode.size == 0 && r.inode.dataBlocks == []
    ensures r.inode.kind == inode.kind && r.inode.nlink == inode.nlink
    ensures r.freeData == freeData + set b | b in inode.dataBlocks
  {
    Cleared(inode.(size := 0, dataBlocks := []), freeData + set b | b in inode.dataBlocks)
  }

  /** `Inode::clear` on inode `id`: its size drops to 0 and exactly the
      blocks it owned are freed; its type, its link count and every other
      inode stay as they were. */
  function Clear(fs: FileSystem, id: nat): (fs': FileSystem)
    requires id in fs.inodes
    ensures fs'.entries == fs.entries
    ensures fs'.inodes.Keys == fs.inodes.Keys
    ensures fs'.inodes[id] == fs.inodes[id].(size := 0, dataBlocks := [])
    ensures fs'.freeData == fs.freeData + set b | b in fs.inodes[id].dataBlocks
    ensures forall j :: j in fs.inodes && j != id ==> fs'.inodes[j] == fs.inodes[j]
  {
    var c := ClearData(fs.inodes[id], fs.freeData);
    FileSystem(fs.entries, fs.inodes[id := c.inode], c.freeData)
  }

  /** Result of growing an inode: the inode and the free-block set. */
  datatype Grown = Grown(inode: DiskInode, freeData: set<nat>)

  /** `Inode::increase_size`: a request below the current size changes
      nothing and allocates nothing; otherwise the size becomes the request
      and the blocks `grown` the data allocator hands out leave the free set
      and are appended to the inode's blocks. */
  function IncreaseSize(inode: DiskInode, newSize: U32, grown: seq<nat>, freeData: set<nat>): (r: Grown)
    ensures newSize < inode.size ==> r == Grown(inode, freeData)
    ensures inode.size <= newSize ==>
      && r.inode.size == newSize
      && |inode.dataBlocks| <= |r.inode.dataBlocks|
      && r.inode.dataBlocks[..|inode.dataBlocks|] == inode.dataBlocks
      && r.inode.dataBlocks[|inode.dataBlocks|..] == grown
      && r.inode.kind == inode.kind && r.inode.nlink == inode.nlink
      && r.freeData == freeData - set b | b in grown
  {
    if newSize < inode.size then Grown(inode, freeData)
    else Grown(inode.(size := newSize, dataBlocks := inode.dataBlocks + grown), freeData - set b | b in grown)
  }

  /** Sizes never shrink through `increase_size`, and blocks are only ever
      taken from the free set, never returned to it. */
  lemma IncreaseSizeMonotone(inode: DiskInode, newSize: U32, grown: seq<nat>, freeData: set<nat>)
    ensures IncreaseSize(inode, newSize, grown, freeData).inode.size >= inode.size
    ensures IncreaseSize(inode, newSize, grown, freeData).inode.size
         == (if newSize < inode.size then inode.size else newSize)
    ensures IncreaseSize(inode, newSize, grown, freeData).freeData <= freeData
  {
  }

  /** The root-directory side of `add_new_entry`: reusing a free slot
      changes nothing; appending one grows the root (inode 0) through
      `increase_size` to the new slot count times `DIRENT_SZ`, with the
      blocks `grown` from the data allocator. Other inodes and the slots
      themselves are left alone. */
  function GrowRoot(fs: FileSystem, grown: seq<nat>): (fs': FileSystem)
    requires 0 in fs.inodes
    ensures fs'.entries == fs.entries
    ensures fs'.inodes.Keys == fs.inodes.Keys
    ensures forall j :: j in fs.inodes && j != 0 ==> fs'.inodes[j] == fs.inodes[j]
    ensures FirstFree(fs.entries).Some? ==> fs' == fs
    ensures FirstFree(fs.entries).None? ==>
      var g := IncreaseSize(fs.inodes[0], AppendedSize(fs.entries), grown, fs.freeData);
      fs'.inodes[0] == g.inode && fs'.freeData == g.freeData
  {
    if FirstFree(fs.entries).Some? then fs
    else
      var g := IncreaseSize(fs.inodes[0], AppendedSize(fs.entries), grown, fs.freeData);
      fs.(inodes := fs.inodes[0 := g.inode], freeData := g.freeData)
  }

  // ----------------------------------------------------------------- stat

  /** `StatMode` bits. */
  const MODE_NULL: nat := 0
  const MODE_DIR: nat := 0x4000   // octal 040000
  const MODE_FILE: nat := 0x8000  // octal 100000

  /** The fields of `Stat` this layer fills in (`dev` is always 0). */
  datatype Stat = Stat(dev: nat, ino: nat, mode: nat, nlink: U32)

  /** The `StatMode` flag `stat` picks for an inode type. */
  function StatMode(kind: DiskInodeType): nat {
    if kind == Directory then MODE_DIR else if kind == File then MODE_FILE else MODE_NULL
  }

  /** `Inode::stat` of inode `id`: directory or file mode from its type,
      its link count. */
  function StatOf(fs: FileSystem, id: nat): (s: Stat)
    requires id in fs.inodes
    ensures s.dev == 0 && s.ino == id
    ensures s.mode == MODE_DIR <==> fs.inodes[id].kind == Directory
    ensures s.mode == MODE_FILE <==> fs.inodes[id].kind == File
    ensures s.mode != MODE_NULL
    ensures s.nlink == fs.inodes[id].nlink
  {
    var d := fs.inodes[id];
    Stat(0, id, StatMode(d.kind), d.nlink)
  }

  /** A file just made by `create` reports itself as a regular file with a
      single link, whatever the directory's growth allocated. */
  lemma StatAfterCreate(fs: FileSystem, name: string, freshId: U32, grown: seq<nat>)
    requires 0 in fs.inodes
    requires FindInodeId(fs.entries, name).None?
    ensures var fs' := Create(fs, name, freshId, grown).fs;
      && freshId in fs'.inodes
      && StatOf(fs', freshId) == Stat(0, freshId, MODE_FILE, INITIAL_NLINK)
  {
    CreateThenFind(fs, name, freshId, grown);
  }
}
