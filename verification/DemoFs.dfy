/** The in-memory file system. Each operation holds the table's lock throughout;
    a panic poisons the lock, so no operation follows one. */
module DemoFs {
  import opened Wrappers
  import opened FileBytes
  import opened NfsReply
  import opened DemoTable
  import DemoTree
  import N = XdrNfs

  const SLASH: bytes := [0x2f]
  const DOT: bytes := [0x2e]
  const DOTDOT: bytes := [0x2e, 0x2e]

  // ---- sizes -------------------------------------------------------------

  ghost function BuffersOf(fs: seq<FSEntry>): set<Buffer> {
    set i | 0 <= i < |fs| && fs[i].contents.File? :: fs[i].contents.buffer
  }

  ghost predicate SizeRight(e: FSEntry)
    reads if e.contents.File? then {e.contents.buffer} else {}
  {
    e.contents.File? ==> e.attr.size == |e.contents.buffer.data| && e.attr.used == e.attr.size
  }

  /** Every file entry's size and used are the length of its buffer. */
  ghost predicate AllSizesRight(fs: seq<FSEntry>)
    reads BuffersOf(fs)
  {
    forall i | 0 <= i < |fs| :: SizeRight(fs[i])
  }

  /** The same for the entries that are in some directory. */
  ghost predicate ListedSizesRight(fs: seq<FSEntry>)
    reads BuffersOf(fs)
  {
    forall i: nat | i < |fs| && Listed(fs, i) :: SizeRight(fs[i])
  }

  /** Sizes of a table depend on its buffers alone. */
  twostate lemma SizesFramed(fs: seq<FSEntry>)
    requires forall b | b in BuffersOf(fs) :: old(allocated(b)) && b.data == old(b.data)
    ensures AllSizesRight(fs) <==> old(AllSizesRight(fs))
    ensures ListedSizesRight(fs) <==> old(ListedSizesRight(fs))
  {
    forall i | 0 <= i < |fs| ensures SizeRight(fs[i]) <==> old(SizeRight(fs[i])) {
      assert fs[i].contents.File? ==> fs[i].contents.buffer in BuffersOf(fs);
    }
  }

  /** Moving and renaming entries keeps sizes right. */
  lemma SameFilesSizes(fs: seq<FSEntry>, n: seq<FSEntry>)
    requires |n| == |fs| && (forall i | 0 <= i < |fs| :: SameFile(fs[i], n[i])) && ListsNoMore(fs, n)
    ensures AllSizesRight(fs) ==> AllSizesRight(n)
    ensures ListedSizesRight(fs) ==> ListedSizesRight(n)
  {
  }

  /** A new entry keeps sizes right if its own is; when it is listed, only if. */
  lemma PushSizes(fs: seq<FSEntry>, dir: nat, entry: FSEntry)
    requires entry.id == |fs| && (entry.contents.Directory? ==> entry.contents.list == [])
    ensures var n := Pushed(fs, dir, entry);
      && (AllSizesRight(fs) && SizeRight(entry) ==> AllSizesRight(n))
      && (ListedSizesRight(fs) && SizeRight(entry) ==> ListedSizesRight(n))
      && (IsDirAt(fs, dir) && !SizeRight(entry) ==> !ListedSizesRight(n))
  {
    var n := Pushed(fs, dir, entry);
    PushListed(fs, dir, entry);
    assert forall i | 0 <= i < |fs| :: SameFile(fs[i], n[i]);
    if IsDirAt(fs, dir) {
      assert ListedIn(n, dir, entry.id) && n[entry.id] == entry;
    }
  }

  lemma LinkSizes(fs: seq<FSEntry>, file: FileId, dir: nat, name: Name)
    requires file < |fs| && fs[file].contents.File? && IsDirAt(fs, dir)
    ensures var n := Linked(fs, file, dir, name);
      && (AllSizesRight(fs) ==> AllSizesRight(n))
      && (ListedSizesRight(fs) ==> (ListedSizesRight(n) <==> SizeRight(fs[file])))
  {
    var entry := FSEntry(|fs|, fs[file].attr, name, dir, fs[file].contents);
    var pushed := Pushed(fs, dir, entry);
    var n := Linked(fs, file, dir, name);
    PushSizes(fs, dir, entry);
    assert forall i | 0 <= i < |pushed| :: SamePlace(pushed[i], n[i]) && SameFile(pushed[i], n[i]);
    SameListsListed(pushed, n);
    SameFilesSizes(pushed, n);
    SameFilesSizes(n, pushed);
  }

  /** All that a rename keeps: structure, listing, tree and sizes. */
  lemma RenameKeeps(fs: seq<FSEntry>, from: nat, fromName: Name, to: nat, toName: Name, id: FileId)
    requires Structured(fs) && IsDirAt(fs, from) && IsDirAt(fs, to)
    requires FirstNamed(fs, fs[from].contents.list, fromName) == Some(id)
    ensures id < |fs|
    ensures var n := Renamed(fs, from, to, id, toName);
      && Structured(n) && (Listed(n, id) <==> from != to || fromName != toName)
      && DemoTree.TreeKeptIff(fs, n, from, to, id, toName)
      && (AllSizesRight(fs) ==> AllSizesRight(n))
      && (ListedSizesRight(fs) ==> ListedSizesRight(n))
  {
    if DemoTree.AllRooted(fs) {
      DemoTree.RenameKeepsRootedIff(fs, from, fromName, to, toName, id);
    }
    RenameKeepsListedIff(fs, from, fromName, to, toName, id);
    RenameSameFiles(fs, from, to, id, toName);
    assert ListedIn(fs, from, id);
    RenameListed(fs, from, to, id, toName);
    SameFilesSizes(fs, Renamed(fs, from, to, id, toName));
  }

  class DemoFS {
    var fs: seq<FSEntry>

    ghost predicate Valid()
      reads this
    {
      Structured(fs)
    }

    ghost predicate Coherent()
      reads this, BuffersOf(fs)
    {
      AllSizesRight(fs)
    }

    ghost predicate ListedCoherent()
      reads this, BuffersOf(fs)
    {
      ListedSizesRight(fs)
    }

    /** The entry at `id` is a new file holding `data`. */
    twostate predicate NewFileAt(id: FileId, data: bytes)
      reads this, BuffersOf(fs)
    {
      id < |fs| && fs[id].contents.File? && fresh(fs[id].contents.buffer) && fs[id].contents.buffer.data == data
    }

    constructor ()
      ensures Valid() && Coherent() && ListedCoherent()
      ensures |fs| == 2 && fs[ROOT] == MakeDir(SLASH, ROOT, ROOT)
    {
      var empty := new Buffer([]);
      fs := [MakeFile([], 0, 0, 0, empty), MakeDir(SLASH, ROOT, ROOT)];
    }

    /** Panics when the file would outgrow the largest vector: at the addition, at
        the resize, or, when the addition wrapped around, at the slice. */
    method Write(id: FileId, offset: u64, data: FileData) returns (r: Outcome<(Attr, nat)>)
      requires Valid()
      modifies this, if id < |fs| && fs[id].contents.File? then {fs[id].contents.buffer} else {}
      ensures Valid()
      ensures old(Coherent()) ==> Coherent()
      ensures old(ListedCoherent()) ==> ListedCoherent()
      ensures id >= |old(fs)| ==> r == Failed(NoEnt3) && fs == old(fs)
      ensures old(IsDirAt(fs, id)) ==> r == Failed(Io3) && fs == old(fs)
      ensures r.Panic? <==> id < |old(fs)| && old(fs)[id].contents.File? && offset + |data| > MAX_LENGTH
      ensures id < |old(fs)| && old(fs)[id].contents.File? && !r.Panic? ==>
        var buffer := old(fs)[id].contents.buffer;
        && buffer.data == Spliced(old(buffer.data), offset, data)
        && fs == Sized(old(fs), buffer, |buffer.data|)
        && r == Done((fs[id].attr, |data|))
    {
      if id >= |fs| {
        return Failed(NoEnt3);
      }
      if fs[id].contents.Directory? {
        return Failed(Io3);
      }
      var buffer := fs[id].contents.buffer;
      if offset + |data| > MAX_LENGTH {
        return Panic;
      }
      if offset + |data| > |buffer.data| {
        buffer.data := Resized(buffer.data, offset + |data|);
      }
      buffer.data := buffer.data[..offset] + data + buffer.data[offset + |data|..];
      UpdateSizes(buffer, |buffer.data|);
      SizeListed(old(fs), buffer, |buffer.data|);
      r := Done((fs[id].attr, |data|));
    }

    method UpdateSizes(buffer: Buffer, size: nat)
      requires Valid()
      modifies this
      ensures Valid() && fs == Sized(old(fs), buffer, size)
    {
      var i := 0;
      while i < |fs|
        invariant 0 <= i <= |fs| == |old(fs)|
        invariant forall j | 0 <= j < |fs| :: fs[j] == if j < i then Sized(old(fs), buffer, size)[j] else old(fs)[j]
      {
        if fs[i].contents == File(buffer) {
          fs := fs[i := fs[i].(attr := fs[i].attr.(size := size, used := size))];
        }
        i := i + 1;
      }
      assert fs == Sized(old(fs), buffer, size);
      SizeStructured(old(fs), buffer, size);
    }

    method Read(id: FileId, offset: u64, count: u32, overflowChecks: bool) returns (r: Outcome<Chunk>)
      ensures id >= |fs| ==> r == Failed(NoEnt3)
      ensures IsDirAt(fs, id) ==> r == Failed(IsDir3)
      ensures id < |fs| && fs[id].contents.File? ==>
        var data := fs[id].contents.buffer.data;
        r == if Stops(data, offset, count, overflowChecks) then Panic else Done(ReadRange(data, offset, count))
    {
      if id >= |fs| {
        return Failed(NoEnt3);
      }
      match fs[id].contents {
        case Directory(_) =>
          r := Failed(IsDir3);
        case File(buffer) =>
          var start := offset;
          var end := offset + count;
          if end >= 0x1_0000_0000_0000_0000 {
            if overflowChecks {
              return Panic;
            }
            end := end - 0x1_0000_0000_0000_0000;
          }
          var eof := end >= |buffer.data|;
          if start >= |buffer.data| {
            start := |buffer.data|;
          }
          if end > |buffer.data| {
            end := |buffer.data|;
          }
          if end < start {
            return Panic;
          }
          r := Done(Chunk(buffer.data[start..end], eof));
      }
    }

    /** Sets the size: the buffer is resized, but only this entry's attributes
        follow. Coherence survives exactly if no other entry shares the buffer or
        the size does not change. A size beyond the largest vector panics. */
    method SetSize(id: FileId, size: u64) returns (r: Outcome<Attr>)
      requires Valid()
      modifies this, if id < |fs| && fs[id].contents.File? then {fs[id].contents.buffer} else {}
      ensures Valid()
      ensures id >= |old(fs)| ==> r == Failed(NoEnt3) && fs == old(fs)
      ensures id < |old(fs)| ==>
        && fs == old(fs)[id := old(fs)[id].(attr := old(fs)[id].attr.(size := size, used := size))]
        && r == if fs[id].contents.File? && size > MAX_LENGTH then Panic else Done(fs[id].attr)
      ensures id < |old(fs)| && old(fs)[id].contents.File? && !r.Panic? ==>
        old(fs)[id].contents.buffer.data == Resized(old(fs[id].contents.buffer.data), size)
      ensures id < |old(fs)| && old(Coherent()) && !r.Panic? ==>
        (Coherent() <==>
          || size == old(fs)[id].attr.size
          || forall j | 0 <= j < |fs| && j != id && fs[j].contents.File? :: fs[j].contents != fs[id].contents)
      ensures id < |old(fs)| && old(fs)[id].contents.File? && old(ListedCoherent()) && !r.Panic? ==>
        (ListedCoherent() <==>
          || size == |old(fs[id].contents.buffer.data)|
          || forall j: nat | j < |fs| && j != id && Listed(fs, j) :: fs[j].contents != fs[id].contents)
    {
      if id >= |fs| {
        return Failed(NoEnt3);
      }
      fs := fs[id := fs[id].(attr := fs[id].attr.(size := size, used := size))];
      match fs[id].contents {
        case File(buffer) =>
          SameListsStructured(old(fs), fs);
          if size > MAX_LENGTH {
            return Panic;
          }
          buffer.data := Resized(buffer.data, size);
        case Directory(_) =>
      }
      SameListsStructured(old(fs), fs);
      SameListsListed(old(fs), fs);
      r := Done(fs[id].attr);
    }

    /** The search loop of lookup, remove, rename, mkdir, link and mknod. */
    method Find(list: seq<FileId>, name: Name) returns (r: Option<FileId>)
      ensures r == FirstNamed(fs, list, name)
    {
      var i := 0;
      while i < |list|
        invariant 0 <= i <= |list| && FirstNamed(fs, list, name) == FirstNamed(fs, list[i..], name)
      {
        if list[i] < |fs| && fs[list[i]].name == name {
          return Some(list[i]);
        }
        i := i + 1;
      }
      return None;
    }

    method Lookup(dirid: FileId, name: Name) returns (r: Outcome<FileId>)
      ensures dirid >= |fs| ==> r == Failed(NoEnt3)
      ensures dirid < |fs| && fs[dirid].contents.File? ==> r == Failed(NotDir3)
      ensures IsDirAt(fs, dirid) ==>
        r == if name == DOT then Done(dirid)
             else if name == DOTDOT then Done(fs[dirid].parent)
             else
               var found := FirstNamed(fs, fs[dirid].contents.list, name);
               if found.Some? then Done(found.value) else Failed(NoEnt3)
    {
      if dirid >= |fs| {
        return Failed(NoEnt3);
      }
      if fs[dirid].contents.File? {
        return Failed(NotDir3);
      }
      if name == DOT {
        return Done(dirid);
      }
      if name == DOTDOT {
        return Done(fs[dirid].parent);
      }
      var found := Find(fs[dirid].contents.list, name);
      r := if found.Some? then Done(found.value) else Failed(NoEnt3);
    }

    /** Pushes an entry and, when `dirid` is a directory, lists it there. */
    method Add(entry: FSEntry, dirid: FileId)
      requires Valid() && entry.id == |fs| && entry.parent == dirid
      requires entry.contents.Directory? ==> entry.contents.list == []
      modifies this
      ensures Valid() && fs == Pushed(old(fs), dirid, entry)
      ensures old(Coherent()) && SizeRight(entry) ==> Coherent()
      ensures old(ListedCoherent()) && SizeRight(entry) ==> ListedCoherent()
    {
      PushStructured(fs, dirid, entry);
      PushSizes(fs, dirid, entry);
      fs := fs + [entry];
      if dirid < |fs| && dirid != entry.id && fs[dirid].contents.Directory? {
        fs := SetList(fs, dirid, fs[dirid].contents.list + [entry.id]);
      }
    }

    /** Creates a file; duplicate names and parents that are no directory are not
        refused. A name that is not UTF-8, or a parent beyond even the new entry,
        panics. */
    method Create(dirid: FileId, name: Name, isText: bool) returns (r: Outcome<(FileId, Attr)>)
      requires Valid()
      modifies this
      ensures Valid()
      ensures old(Coherent()) ==> Coherent()
      ensures old(ListedCoherent()) ==> ListedCoherent()
      ensures r.Panic? <==> !isText || dirid > |old(fs)|
      ensures !isText ==> fs == old(fs)
      ensures isText ==>
        var id := |old(fs)|;
        && NewFileAt(id, [])
        && fs == Pushed(old(fs), dirid, MakeFile(name, id, dirid, 0, fs[id].contents.buffer))
        && (dirid <= id ==> r == Done((id, fs[id].attr)))
    {
      if !isText {
        return Panic;
      }
      var id := |fs|;
      var buffer := new Buffer([]);
      Add(MakeFile(name, id, dirid, 0, buffer), dirid);
      r := if dirid > id then Panic else Done((id, fs[id].attr));
    }

    method Touch(dirid: FileId, now: nat)
      requires Valid() && dirid < |fs|
      modifies this
      ensures Valid() && fs == Touched(old(fs), dirid, now)
      ensures old(Coherent()) ==> Coherent()
      ensures old(ListedCoherent()) ==> ListedCoherent()
    {
      TouchListed(fs, dirid, now);
      SameFilesSizes(fs, Touched(fs, dirid, now));
      TouchStructured(fs, dirid, now);
      fs := Touched(fs, dirid, now);
    }

    /** The last steps of mkdir, symlink and mknod. */
    method AddIn(entry: FSEntry, dirid: FileId, now: nat)
      requires Valid() && entry.id == |fs| && entry.parent == dirid && IsDirAt(fs, dirid)
      requires entry.contents.Directory? ==> entry.contents.list == []
      modifies this
      ensures Valid() && fs == Touched(Pushed(old(fs), dirid, entry), dirid, now)
      ensures fs[entry.id] == entry && ListedIn(fs, dirid, entry.id)
      ensures old(Coherent()) && SizeRight(entry) ==> Coherent()
      ensures old(ListedCoherent()) && SizeRight(entry) ==> ListedCoherent()
    {
      Add(entry, dirid);
      Touch(dirid, now);
    }

    method Mkdir(dirid: FileId, name: Name, isText: bool, now: nat) returns (r: Outcome<(FileId, Attr)>)
      requires Valid()
      modifies this
      ensures Valid()
      ensures old(Coherent()) ==> Coherent()
      ensures old(ListedCoherent()) ==> ListedCoherent()
      ensures !r.Done? ==> fs == old(fs)
      ensures r == Failed(NotDir3) <==> !old(IsDirAt(fs, dirid))
      ensures old(IsDirAt(fs, dirid)) ==>
        && (r == Failed(Exist3) <==> exists id | id in old(fs)[dirid].contents.list :: Named(old(fs), id, name))
        && (r.Panic? <==> r != Failed(Exist3) && !isText)
      ensures r.Done? ==>
        var id := |old(fs)|;
        && fs == Touched(Pushed(old(fs), dirid, MakeDir(name, id, dirid)), dirid, now)
        && r == Done((id, fs[id].attr)) && ListedIn(fs, dirid, id)
    {
      if !(dirid < |fs| && fs[dirid].contents.Directory?) {
        return Failed(NotDir3);
      }
      var taken := Find(fs[dirid].contents.list, name);
      if taken.Some? {
        return Failed(Exist3);
      }
      if !isText {
        return Panic;
      }
      var id := |fs|;
      AddIn(MakeDir(name, id, dirid), dirid, now);
      r := Done((id, fs[id].attr));
    }

    /** Creates a symbolic link; unlike mkdir, link and mknod it accepts a taken name. */
    method Symlink(dirid: FileId, name: Name, isText: bool, target: FileData, now: nat)
      returns (r: Outcome<(FileId, Attr)>)
      requires Valid()
      modifies this
      ensures Valid()
      ensures old(Coherent()) ==> Coherent()
      ensures old(ListedCoherent()) ==> ListedCoherent()
      ensures !r.Done? ==> fs == old(fs)
      ensures r == Failed(NotDir3) <==> !old(IsDirAt(fs, dirid))
      ensures r.Panic? <==> old(IsDirAt(fs, dirid)) && !isText
      ensures r.Failed? ==> r == Failed(NotDir3)
      ensures r.Done? ==>
        var id := |old(fs)|;
        && id < |fs| && r == Done((id, fs[id].attr)) && ListedIn(fs, dirid, id)
        && NewFileAt(id, target)
        && var file := MakeFile(name, id, dirid, |target|, fs[id].contents.buffer);
        && fs == Touched(Pushed(old(fs), dirid, file.(attr := file.attr.(kind := N.NF3LNK))), dirid, now)
    {
      if !(dirid < |fs| && fs[dirid].contents.Directory?) {
        return Failed(NotDir3);
      }
      if !isText {
        return Panic;
      }
      var id := |fs|;
      var buffer := new Buffer(target);
      var entry := MakeFile(name, id, dirid, |target|, buffer);
      AddIn(entry.(attr := entry.attr.(kind := N.NF3LNK)), dirid, now);
      r := Done((id, fs[id].attr));
    }

    method Link(file: FileId, dirid: FileId, name: Name) returns (r: Outcome<Attr>)
      requires Valid()
      modifies this
      ensures Valid()
      ensures old(Coherent()) ==> Coherent()
      ensures r == if file >= |old(fs)| then Failed(NoEnt3)
                   else if old(IsDirAt(fs, file)) then Failed(IsDir3)
                   else if !old(IsDirAt(fs, dirid)) then Failed(NotDir3)
                   else if old(FirstNamed(fs, fs[dirid].contents.list, name)).Some? then Failed(Exist3)
                   else Done(old(fs)[file].attr)
      ensures !r.Done? ==> fs == old(fs)
      ensures r.Done? ==> fs == Linked(old(fs), file, dirid, name) && ListedIn(fs, dirid, |old(fs)|)
      ensures old(ListedCoherent()) ==> (ListedCoherent() <==> !r.Done? || old(SizeRight(fs[file])))
    {
      if file >= |fs| {
        return Failed(NoEnt3);
      }
      if fs[file].contents.Directory? {
        return Failed(IsDir3);
      }
      if !(dirid < |fs| && fs[dirid].contents.Directory?) {
        return Failed(NotDir3);
      }
      var taken := Find(fs[dirid].contents.list, name);
      if taken.Some? {
        return Failed(Exist3);
      }
      LinkStructured(fs, file, dirid, name);
      LinkSizes(fs, file, dirid, name);
      r := AddLink(file, dirid, name);
      SizesFramed(fs);
    }

    method AddLink(file: FileId, dirid: FileId, name: Name) returns (r: Outcome<Attr>)
      requires Valid() && file < |fs| && fs[file].contents.File? && IsDirAt(fs, dirid)
      modifies this
      ensures fs == Linked(old(fs), file, dirid, name) && r == Done(old(fs)[file].attr)
    {
      var id := |fs|;
      Add(FSEntry(id, fs[file].attr, name, dirid, fs[file].contents), dirid);
      fs := fs[file := fs[file].(attr := fs[file].attr.(nlink := fs[file].attr.nlink + 1))];
      r := Done(fs[id].attr);
    }

    method Mknod(dirid: FileId, name: Name, isText: bool, kind: N.FileKind, rdev: nat, owner: Owner, now: nat)
      returns (r: Outcome<(FileId, Attr)>)
      requires Valid()
      modifies this
      ensures Valid()
      ensures old(Coherent()) ==> Coherent()
      ensures old(ListedCoherent()) ==> ListedCoherent()
      ensures !r.Done? ==> fs == old(fs)
      ensures if !old(IsDirAt(fs, dirid)) then r == Failed(NotDir3)
              else if old(FirstNamed(fs, fs[dirid].contents.list, name)).Some? then r == Failed(Exist3)
              else if kind == N.NF3LNK then r == Failed(NotSupp3)
              else if !isText then r == Panic
              else r.Done?
      ensures r.Done? ==>
        var id := |old(fs)|;
        && id < |fs| && r == Done((id, fs[id].attr)) && ListedIn(fs, dirid, id)
        && (kind != N.NF3DIR ==> NewFileAt(id, []))
        && var made := if kind == N.NF3DIR then MakeDir(name, id, dirid)
                       else MakeFile(name, id, dirid, 0, fs[id].contents.buffer);
        && fs == Touched(Pushed(old(fs), dirid, made.(attr := NodeAttr(made.attr, kind, rdev, owner))), dirid, now)
    {
      if !(dirid < |fs| && fs[dirid].contents.Directory?) {
        return Failed(NotDir3);
      }
      var taken := Find(fs[dirid].contents.list, name);
      if taken.Some? {
        return Failed(Exist3);
      }
      if kind == N.NF3LNK {
        return Failed(NotSupp3);
      }
      if !isText {
        return Panic;
      }
      var id := |fs|;
      var entry;
      if kind == N.NF3DIR {
        entry := MakeDir(name, id, dirid);
      } else {
        var buffer := new Buffer([]);
        entry := MakeFile(name, id, dirid, 0, buffer);
      }
      AddIn(entry.(attr := NodeAttr(entry.attr, kind, rdev, owner)), dirid, now);
      r := Done((id, fs[id].attr));
    }

    /** Unlists a file. Its entry stays in the table with an empty buffer but keeps
        its old size, so coherence survives exactly if that size was zero. */
    method Remove(dirid: FileId, name: Name) returns (r: Outcome<()>)
      requires Valid()
      modifies this
      ensures Valid()
      ensures r == if dirid >= |old(fs)| then Failed(NoEnt3)
                   else if !old(IsDirAt(fs, dirid)) then Failed(NotDir3)
                   else
                     var found := old(FirstNamed(fs, fs[dirid].contents.list, name));
                     if found.None? then Failed(NoEnt3)
                     else if IsDirAt(old(fs), found.value) then Failed(IsDir3) else Done(())
      ensures !r.Done? ==> fs == old(fs)
      ensures r.Done? ==>
        var id := FirstNamed(old(fs), old(fs)[dirid].contents.list, name).value;
        && NewFileAt(id, []) && fs == Removed(old(fs), dirid, id, fs[id].contents.buffer)
        && !Listed(fs, id) && (old(ListedCoherent()) ==> ListedCoherent())
        && (old(Coherent()) ==> (Coherent() <==> old(fs)[id].attr.size == 0))
    {
      if dirid >= |fs| {
        return Failed(NoEnt3);
      }
      if fs[dirid].contents.File? {
        return Failed(NotDir3);
      }
      var found := Find(fs[dirid].contents.list, name);
      if found.None? {
        return Failed(NoEnt3);
      }
      var id := found.value;
      if fs[id].contents.Directory? {
        return Failed(IsDir3);
      }
      assert ListedIn(fs, dirid, id);
      var empty := new Buffer([]);
      RemoveStructured(fs, dirid, id, empty);
      RemoveListed(fs, dirid, id, empty);
      fs := SetList(fs, dirid, Without(fs[dirid].contents.list, id));
      fs := fs[id := fs[id].(name := [], contents := File(empty))];
      r := Done(());
    }

    /** Renames; a source directory id beyond the table panics. */
    method Rename(from: FileId, fromName: Name, to: FileId, toName: Name) returns (r: Outcome<()>)
      requires Valid()
      modifies this
      ensures Valid()
      ensures old(Coherent()) ==> Coherent()
      ensures old(ListedCoherent()) ==> ListedCoherent()
      ensures r == if from >= |old(fs)| then Panic
                   else if !old(IsDirAt(fs, from)) then Failed(NotDir3)
                   else if old(FirstNamed(fs, fs[from].contents.list, fromName)).None? then Failed(NoEnt3)
                   else if !old(IsDirAt(fs, to)) then Failed(NotDir3) else Done(())
      ensures !r.Done? ==> fs == old(fs)
      ensures r.Done? ==>
        var id := FirstNamed(old(fs), old(fs)[from].contents.list, fromName).value;
        && fs == Renamed(old(fs), from, to, id, toName)
        && (Listed(fs, id) <==> from != to || fromName != toName)
        && DemoTree.TreeKeptIff(old(fs), fs, from, to, id, toName)
    {
      if from >= |fs| {
        return Panic;
      }
      if fs[from].contents.File? {
        return Failed(NotDir3);
      }
      var found := Find(fs[from].contents.list, fromName);
      if found.None? {
        return Failed(NoEnt3);
      }
      var id := found.value;
      if !(to < |fs| && fs[to].contents.Directory?) {
        return Failed(NotDir3);
      }
      RenameKeeps(fs, from, fromName, to, toName, id);
      MoveEntry(from, to, id, toName);
      SizesFramed(fs);
      r := Done(());
    }

    method MoveEntry(from: FileId, to: FileId, id: FileId, toName: Name)
      requires IsDirAt(fs, from) && IsDirAt(fs, to) && id < |fs|
      modifies this
      ensures fs == Renamed(old(fs), from, to, id, toName)
    {
      var target := Find(fs[to].contents.list, toName);
      if target.Some? {
        fs := SetList(fs, to, Without(fs[to].contents.list, target.value));
      }
      if from != to {
        fs := SetList(fs, from, Without(fs[from].contents.list, id));
        fs := SetList(fs, to, fs[to].contents.list + [id]);
        fs := fs[id := fs[id].(parent := to)];
      }
      fs := fs[id := fs[id].(name := toName)];
    }
  }

  /** What a write through one link means for a read through any entry: entries
      that share the buffer see the new bytes, all others what they saw before. */
  method WriteThenRead(
    demo: DemoFS, id: FileId, offset: u64, data: FileData, other: FileId, from: u64, count: u32, overflowChecks: bool)
    returns (seen: Outcome<Chunk>)
    requires demo.Valid()
    requires id < |demo.fs| && demo.fs[id].contents.File?
    requires other < |demo.fs| && demo.fs[other].contents.File?
    modifies demo, demo.fs[id].contents.buffer
    ensures offset + |data| > MAX_LENGTH ==> seen == Panic
    ensures offset + |data| <= MAX_LENGTH ==>
      var now :=
        if old(demo.fs[other].contents == demo.fs[id].contents)
        then Spliced(old(demo.fs[id].contents.buffer.data), offset, data)
        else old(demo.fs[other].contents.buffer.data);
      && |now| <= MAX_LENGTH
      && seen == if Stops(now, from, count, overflowChecks) then Panic else Done(ReadRange(now, from, count))
    ensures old(demo.Coherent()) ==> demo.Coherent()
  {
    var written := demo.Write(id, offset, data);
    if written.Panic? {
      return Panic;
    }
    seen := demo.Read(other, from, count, overflowChecks);
  }
}
