/** The entry table of the in-memory file system: its structure, and what each
    operation does to it. */
module DemoTable {
  import opened Wrappers
  import opened FileBytes
  import opened NfsReply
  import N = XdrNfs

  type FileId = nat
  type Name = bytes

  datatype Outcome<+T> = Done(value: T) | Failed(stat: Stat) | Panic

  datatype Attr = Attr(
    kind: N.FileKind, mode: nat, nlink: nat, uid: nat, gid: nat, size: nat, used: nat, rdev: nat, mtime: nat)

  /** The shared contents of a file. */
  class Buffer {
    var data: FileData

    constructor (data: FileData)
      ensures this.data == data
    {
      this.data := data;
    }
  }

  datatype Contents = File(buffer: Buffer) | Directory(list: seq<FileId>)

  datatype FSEntry = FSEntry(id: FileId, attr: Attr, name: Name, parent: FileId, contents: Contents)

  // ---- structure of the entry table --------------------------------------

  predicate IsDirAt(fs: seq<FSEntry>, i: nat) {
    i < |fs| && fs[i].contents.Directory?
  }

  /** `id` is in the directory list of entry `dir`. */
  predicate ListedIn(fs: seq<FSEntry>, dir: nat, id: FileId) {
    IsDirAt(fs, dir) && id in fs[dir].contents.list
  }

  const ROOT: FileId := 1

  ghost predicate Structured(fs: seq<FSEntry>) {
    && |fs| >= 2 && IsDirAt(fs, ROOT)
    && (forall i | 0 <= i < |fs| :: fs[i].id == i)
    && (forall d: nat, id: nat | ListedIn(fs, d, id) :: id < |fs| && fs[id].parent == d && id != ROOT)
    && (forall d: nat, i, j | IsDirAt(fs, d) && 0 <= i < j < |fs[d].contents.list| ::
      fs[d].contents.list[i] != fs[d].contents.list[j])
  }

  /** Directory lists are pairwise disjoint, because a listed child names its parent. */
  lemma ListsDisjoint(fs: seq<FSEntry>, d: nat, e: nat, id: FileId)
    requires Structured(fs) && ListedIn(fs, d, id) && ListedIn(fs, e, id)
    ensures d == e
  {
  }

  ghost predicate Listed(fs: seq<FSEntry>, id: FileId) {
    exists d: nat :: ListedIn(fs, d, id)
  }

  function Without(list: seq<FileId>, id: FileId): (r: seq<FileId>)
    ensures forall x :: x in r <==> x in list && x != id
  {
    if list == [] then []
    else if list[0] == id then Without(list[1..], id)
    else [list[0]] + Without(list[1..], id)
  }

  lemma {:induction false} WithoutDistinct(list: seq<FileId>, id: FileId)
    requires forall i, j | 0 <= i < j < |list| :: list[i] != list[j]
    ensures forall i, j | 0 <= i < j < |Without(list, id)| :: Without(list, id)[i] != Without(list, id)[j]
  {
    if list != [] {
      WithoutDistinct(list[1..], id);
      var rest := Without(list[1..], id);
      if list[0] != id {
        forall j | 1 <= j < |Without(list, id)| ensures Without(list, id)[j] != list[0] {
          assert Without(list, id)[j] == rest[j - 1] && rest[j - 1] in rest;
        }
      }
    }
  }

  function SetList(fs: seq<FSEntry>, dir: nat, list: seq<FileId>): seq<FSEntry>
    requires IsDirAt(fs, dir)
  {
    fs[dir := fs[dir].(contents := Directory(list))]
  }

  /** The table after a new entry is pushed and listed in `dir`, when that is a directory. */
  function Pushed(fs: seq<FSEntry>, dir: nat, entry: FSEntry): seq<FSEntry> {
    var grown := fs + [entry];
    if IsDirAt(fs, dir) then SetList(grown, dir, fs[dir].contents.list + [entry.id]) else grown
  }

  lemma PushStructured(fs: seq<FSEntry>, dir: nat, entry: FSEntry)
    requires Structured(fs) && entry.id == |fs| && entry.parent == dir
    requires entry.contents.Directory? ==> entry.contents.list == []
    ensures Structured(Pushed(fs, dir, entry))
  {
    var n := Pushed(fs, dir, entry);
    forall d: nat, id: nat | ListedIn(n, d, id) ensures id < |n| && n[id].parent == d && id != ROOT {
      assert d < |fs|;
      if id != |fs| || d != dir {
        assert ListedIn(fs, d, id);
      }
    }
    forall d: nat, i, j | IsDirAt(n, d) && 0 <= i < j < |n[d].contents.list|
      ensures n[d].contents.list[i] != n[d].contents.list[j]
    {
      if d < |fs| {
        assert ListedIn(fs, d, fs[d].contents.list[i]);
        assert i < |fs[d].contents.list|;
        if j < |fs[d].contents.list| {
          assert fs[d].contents.list[i] != fs[d].contents.list[j];
        }
      }
    }
  }

  /** Attributes, names and file buffers may differ. */
  predicate SamePlace(a: FSEntry, b: FSEntry) {
    && a.id == b.id && a.parent == b.parent
    && (a.contents == b.contents || (a.contents.File? && b.contents.File?))
  }

  /** Changing attributes, names or file buffers in place keeps the structure. */
  lemma SameListsStructured(fs: seq<FSEntry>, n: seq<FSEntry>)
    requires Structured(fs) && |n| == |fs|
    requires forall i | 0 <= i < |fs| :: SamePlace(fs[i], n[i])
    ensures Structured(n)
  {
    assert forall d: nat :: IsDirAt(n, d) <==> IsDirAt(fs, d);
    assert forall d: nat, id: nat :: ListedIn(n, d, id) <==> ListedIn(fs, d, id);
    forall d: nat, i, j | IsDirAt(n, d) && 0 <= i < j < |n[d].contents.list|
      ensures n[d].contents.list[i] != n[d].contents.list[j]
    {
      assert IsDirAt(fs, d) && n[d].contents == fs[d].contents;
    }
  }

  lemma DropStructured(fs: seq<FSEntry>, dir: nat, id: FileId)
    requires Structured(fs) && IsDirAt(fs, dir)
    ensures Structured(SetList(fs, dir, Without(fs[dir].contents.list, id)))
  {
    var n := SetList(fs, dir, Without(fs[dir].contents.list, id));
    assert forall d: nat, x: nat | ListedIn(n, d, x) :: ListedIn(fs, d, x);
    forall i, j | 0 <= i < j < |fs[dir].contents.list| ensures fs[dir].contents.list[i] != fs[dir].contents.list[j] {
    }
    WithoutDistinct(fs[dir].contents.list, id);
    forall d: nat, i, j | IsDirAt(n, d) && 0 <= i < j < |n[d].contents.list|
      ensures n[d].contents.list[i] != n[d].contents.list[j]
    {
      assert IsDirAt(fs, d);
    }
  }

  /** An unlisted entry becomes a child of `dir`. */
  function Adopted(fs: seq<FSEntry>, dir: nat, id: FileId): seq<FSEntry>
    requires IsDirAt(fs, dir) && id < |fs|
  {
    var n := SetList(fs, dir, fs[dir].contents.list + [id]);
    n[id := n[id].(parent := dir)]
  }

  lemma AdoptStructured(fs: seq<FSEntry>, dir: nat, id: FileId)
    requires Structured(fs) && IsDirAt(fs, dir) && id < |fs| && id != ROOT && !Listed(fs, id)
    ensures Structured(Adopted(fs, dir, id))
  {
    var n := Adopted(fs, dir, id);
    assert forall d: nat :: IsDirAt(n, d) <==> IsDirAt(fs, d);
    forall d: nat, x: nat | ListedIn(n, d, x) ensures x < |n| && n[x].parent == d && x != ROOT {
      if x != id {
        assert ListedIn(fs, d, x);
      } else if d != dir {
        assert ListedIn(fs, d, x);
      }
    }
    forall d: nat, i, j | IsDirAt(n, d) && 0 <= i < j < |n[d].contents.list|
      ensures n[d].contents.list[i] != n[d].contents.list[j]
    {
      assert IsDirAt(fs, d);
      if d == dir && j == |fs[d].contents.list| {
        assert ListedIn(fs, d, fs[d].contents.list[i]);
      }
    }
  }

  /** The same kind of entry, and for files the same buffer and sizes. */
  predicate SameFile(a: FSEntry, b: FSEntry) {
    && (a.contents.File? <==> b.contents.File?)
    && (a.contents.File? ==> a.contents == b.contents && a.attr.size == b.attr.size && a.attr.used == b.attr.used)
  }

  // ---- operations on the table -------------------------------------------

  function MakeFile(name: Name, id: FileId, parent: FileId, size: nat, buffer: Buffer): FSEntry {
    FSEntry(id, Attr(N.NF3REG, 0x1ed, 1, 507, 507, size, size, 0, 0), name, parent, File(buffer))
  }

  function MakeDir(name: Name, id: FileId, parent: FileId): FSEntry {
    FSEntry(id, Attr(N.NF3DIR, 0x1ff, 1, 507, 507, 0, 0, 0, 0), name, parent, Directory([]))
  }

  /** The attributes a caller may set on a new node. */
  datatype Owner = Owner(mode: Option<nat>, uid: Option<nat>, gid: Option<nat>)

  function Given(o: Option<nat>, otherwise: nat): nat {
    if o.Some? then o.value else otherwise
  }

  /** Only block and character devices keep the device numbers. */
  function NodeAttr(a: Attr, kind: N.FileKind, rdev: nat, owner: Owner): Attr {
    a.(kind := kind, rdev := if kind == N.NF3BLK || kind == N.NF3CHR then rdev else a.rdev,
       mode := Given(owner.mode, a.mode), uid := Given(owner.uid, a.uid), gid := Given(owner.gid, a.gid))
  }

  predicate Named(fs: seq<FSEntry>, id: FileId, name: Name) {
    id < |fs| && fs[id].name == name
  }

  /** The first id in a directory list whose entry has the name. */
  function FirstNamed(fs: seq<FSEntry>, list: seq<FileId>, name: Name): (r: Option<FileId>)
    ensures r.Some? ==> r.value in list && Named(fs, r.value, name)
    ensures r.None? ==> forall id | id in list :: !Named(fs, id, name)
  {
    if list == [] then None
    else if Named(fs, list[0], name) then Some(list[0])
    else FirstNamed(fs, list[1..], name)
  }

  lemma {:induction false} FirstNamedLast(fs: seq<FSEntry>, list: seq<FileId>, id: FileId, name: Name)
    requires Named(fs, id, name)
    ensures FirstNamed(fs, list + [id], name) ==
      var earlier := FirstNamed(fs, list, name);
      if earlier.Some? then earlier else Some(id)
  {
    if list == [] {
      assert list + [id] == [id];
    } else {
      assert (list + [id])[1..] == list[1..] + [id];
      FirstNamedLast(fs, list[1..], id, name);
    }
  }

  lemma {:induction false} FirstNamedSame(fs: seq<FSEntry>, n: seq<FSEntry>, list: seq<FileId>, name: Name)
    requires forall id | id in list :: Named(fs, id, name) <==> Named(n, id, name)
    ensures FirstNamed(fs, list, name) == FirstNamed(n, list, name)
  {
    if list != [] {
      assert list[0] in list;
      FirstNamedSame(fs, n, list[1..], name);
    }
  }

  function Touched(fs: seq<FSEntry>, dir: nat, time: nat): seq<FSEntry>
    requires dir < |fs|
  {
    fs[dir := fs[dir].(attr := fs[dir].attr.(mtime := time))]
  }

  lemma TouchStructured(fs: seq<FSEntry>, dir: nat, time: nat)
    requires Structured(fs) && dir < |fs|
    ensures Structured(Touched(fs, dir, time))
  {
    SameListsStructured(fs, Touched(fs, dir, time));
  }

  /** The id leaves the directory; its entry loses its name and gets an empty buffer. */
  function Removed(fs: seq<FSEntry>, dir: nat, id: FileId, empty: Buffer): seq<FSEntry>
    requires IsDirAt(fs, dir) && id < |fs|
  {
    var n := SetList(fs, dir, Without(fs[dir].contents.list, id));
    n[id := n[id].(name := [], contents := File(empty))]
  }

  lemma RemoveStructured(fs: seq<FSEntry>, dir: nat, id: FileId, empty: Buffer)
    requires Structured(fs) && ListedIn(fs, dir, id) && fs[id].contents.File?
    ensures Structured(Removed(fs, dir, id, empty)) && !Listed(Removed(fs, dir, id, empty), id)
  {
    DropStructured(fs, dir, id);
    DropUnlists(fs, dir, id);
    SameListsStructured(SetList(fs, dir, Without(fs[dir].contents.list, id)), Removed(fs, dir, id, empty));
    forall d: nat ensures !ListedIn(Removed(fs, dir, id, empty), d, id) {
      assert !ListedIn(SetList(fs, dir, Without(fs[dir].contents.list, id)), d, id);
    }
  }

  lemma DropUnlists(fs: seq<FSEntry>, dir: nat, id: FileId)
    requires Structured(fs) && ListedIn(fs, dir, id)
    ensures !Listed(SetList(fs, dir, Without(fs[dir].contents.list, id)), id)
  {
    var n := SetList(fs, dir, Without(fs[dir].contents.list, id));
    forall d: nat ensures !ListedIn(n, d, id) {
      if ListedIn(n, d, id) {
        ListsDisjoint(fs, d, dir, id);
      }
    }
  }

  /** `target`, the entry the new name belonged to, leaves `to` first. */
  function Cleared(fs: seq<FSEntry>, to: nat, target: Option<FileId>): seq<FSEntry>
    requires IsDirAt(fs, to)
  {
    if target.Some? then SetList(fs, to, Without(fs[to].contents.list, target.value)) else fs
  }

  function Moved(fs: seq<FSEntry>, from: nat, to: nat, id: FileId): seq<FSEntry>
    requires IsDirAt(fs, from) && IsDirAt(fs, to) && id < |fs|
  {
    if from == to then fs else Adopted(SetList(fs, from, Without(fs[from].contents.list, id)), to, id)
  }

  function Renamed(fs: seq<FSEntry>, from: nat, to: nat, id: FileId, name: Name): seq<FSEntry>
    requires IsDirAt(fs, from) && IsDirAt(fs, to) && id < |fs|
  {
    var n := Moved(Cleared(fs, to, FirstNamed(fs, fs[to].contents.list, name)), from, to, id);
    n[id := n[id].(name := name)]
  }

  lemma ClearStructured(fs: seq<FSEntry>, from: nat, to: nat, id: FileId, target: Option<FileId>)
    requires Structured(fs) && IsDirAt(fs, to) && ListedIn(fs, from, id)
    requires target.Some? ==> ListedIn(fs, to, target.value)
    ensures var n := Cleared(fs, to, target);
      Structured(n) && (ListedIn(n, from, id) <==> from != to || target != Some(id))
  {
    if target.Some? {
      DropStructured(fs, to, target.value);
    }
  }

  lemma MoveStructured(fs: seq<FSEntry>, from: nat, to: nat, id: FileId)
    requires Structured(fs) && IsDirAt(fs, from) && IsDirAt(fs, to) && id < |fs|
    requires from != to ==> ListedIn(fs, from, id)
    ensures var n := Moved(fs, from, to, id); Structured(n) && (from != to ==> ListedIn(n, to, id))
  {
    if from != to {
      DropStructured(fs, from, id);
      DropUnlists(fs, from, id);
      AdoptStructured(SetList(fs, from, Without(fs[from].contents.list, id)), to, id);
    }
  }

  lemma NameStructured(fs: seq<FSEntry>, id: FileId, name: Name)
    requires Structured(fs) && id < |fs|
    ensures var n := fs[id := fs[id].(name := name)];
      Structured(n) && forall d: nat, x: nat :: ListedIn(n, d, x) <==> ListedIn(fs, d, x)
  {
    SameListsStructured(fs, fs[id := fs[id].(name := name)]);
  }

  /** Renaming keeps the structure, and keeps the entry listed in its new
      directory unless it is renamed onto its own name in its own directory:
      then, and only then, the entry is lost. */
  lemma RenameKeepsListedIff(fs: seq<FSEntry>, from: nat, fromName: Name, to: nat, toName: Name, id: FileId)
    requires Structured(fs) && IsDirAt(fs, from) && IsDirAt(fs, to)
    requires FirstNamed(fs, fs[from].contents.list, fromName) == Some(id)
    ensures id < |fs| && Structured(Renamed(fs, from, to, id, toName))
    ensures ListedIn(Renamed(fs, from, to, id, toName), to, id) <==> Listed(Renamed(fs, from, to, id, toName), id)
    ensures Listed(Renamed(fs, from, to, id, toName), id) <==> from != to || fromName != toName
  {
    assert ListedIn(fs, from, id);
    var target := FirstNamed(fs, fs[to].contents.list, toName);
    ClearStructured(fs, from, to, id, target);
    var n1 := Cleared(fs, to, target);
    MoveStructured(n1, from, to, id);
    var n2 := Moved(n1, from, to, id);
    NameStructured(n2, id, toName);
    if from == to && fromName == toName {
      DropUnlists(fs, to, id);
    }
  }

  lemma MovedList(fs: seq<FSEntry>, from: nat, to: nat, id: FileId, name: Name)
    requires Structured(fs) && ListedIn(fs, from, id) && IsDirAt(fs, to) && from != to
    ensures var n := Renamed(fs, from, to, id, name); var target := FirstNamed(fs, fs[to].contents.list, name);
      && IsDirAt(n, to) && Named(n, id, name)
      && n[to].contents.list == Cleared(fs, to, target)[to].contents.list + [id]
      && (forall x | x in fs[to].contents.list :: x < |n| && n[x].name == fs[x].name)
  {
    forall x | x in fs[to].contents.list ensures x < |fs| && x != id {
      assert ListedIn(fs, to, x);
    }
  }

  lemma RenameSameFiles(fs: seq<FSEntry>, from: nat, to: nat, id: FileId, name: Name)
    requires IsDirAt(fs, from) && IsDirAt(fs, to) && id < |fs|
    ensures var n := Renamed(fs, from, to, id, name);
      |n| == |fs| && forall i | 0 <= i < |fs| :: SameFile(fs[i], n[i])
  {
    var n1 := Cleared(fs, to, FirstNamed(fs, fs[to].contents.list, name));
    assert forall i | 0 <= i < |fs| :: SameFile(fs[i], n1[i]);
    var n2 := Moved(n1, from, to, id);
    assert forall i | 0 <= i < |fs| :: SameFile(n1[i], n2[i]);
  }

  /** Moved to another directory, the entry is what its new name resolves to there
      if and only if nothing but the replaced entry had that name. */
  lemma MovedIsFoundIff(fs: seq<FSEntry>, from: nat, fromName: Name, to: nat, toName: Name, id: FileId)
    requires Structured(fs) && IsDirAt(fs, from) && IsDirAt(fs, to) && from != to
    requires FirstNamed(fs, fs[from].contents.list, fromName) == Some(id)
    ensures id < |fs| && IsDirAt(Renamed(fs, from, to, id, toName), to)
    ensures var n := Renamed(fs, from, to, id, toName);
      FirstNamed(n, n[to].contents.list, toName) == Some(id) <==>
      forall x | x in fs[to].contents.list && Named(fs, x, toName) ::
        Some(x) == FirstNamed(fs, fs[to].contents.list, toName)
  {
    assert ListedIn(fs, from, id);
    var list := fs[to].contents.list;
    var target := FirstNamed(fs, list, toName);
    var n := Renamed(fs, from, to, id, toName);
    var kept := Cleared(fs, to, target)[to].contents.list;
    assert kept == if target.Some? then Without(list, target.value) else list;
    MovedList(fs, from, to, id, toName);
    FirstNamedLast(n, kept, id, toName);
    if Some(id) == FirstNamed(n, kept, toName) {
      assert ListedIn(fs, to, id);
    }
    assert forall x | x in list :: ListedIn(fs, to, x);
    FirstNamedSame(fs, n, kept, toName);
  }

  /** Nothing before `list[k]` but `skip` has the name. */
  ghost predicate NothingBefore(fs: seq<FSEntry>, list: seq<FileId>, skip: Option<FileId>, k: nat, name: Name)
    requires k <= |list|
  {
    forall i | 0 <= i < k && Named(fs, list[i], name) :: Some(list[i]) == skip
  }

  lemma NothingBeforeTail(fs: seq<FSEntry>, list: seq<FileId>, skip: Option<FileId>, k: nat, name: Name)
    requires 0 < k <= |list|
    ensures NothingBefore(fs, list, skip, k, name) <==>
      (Named(fs, list[0], name) ==> Some(list[0]) == skip) && NothingBefore(fs, list[1..], skip, k - 1, name)
  {
    assert forall i | 0 < i < k :: list[i] == list[1..][i - 1];
  }

  function Skipping(list: seq<FileId>, skip: Option<FileId>): seq<FileId> {
    if skip.Some? then Without(list, skip.value) else list
  }

  lemma {:induction false} FoundInListIff(
    fs: seq<FSEntry>, list: seq<FileId>, skip: Option<FileId>, k: nat, name: Name)
    requires k < |list| && Named(fs, list[k], name) && skip != Some(list[k]) && list[k] !in list[..k]
    ensures FirstNamed(fs, Skipping(list, skip), name) == Some(list[k]) <==> NothingBefore(fs, list, skip, k, name)
  {
    if k > 0 {
      assert list[0] in list[..k] && list[..k][1..] == list[1..][..k - 1];
      FoundInListIff(fs, list[1..], skip, k - 1, name);
      NothingBeforeTail(fs, list, skip, k, name);
      assert Skipping(list, skip)
        == if skip == Some(list[0]) then Skipping(list[1..], skip) else [list[0]] + Skipping(list[1..], skip);
    }
  }

  lemma NamedElsewhere(fs: seq<FSEntry>, n: seq<FSEntry>, list: seq<FileId>, skip: Option<FileId>, k: nat, name: Name)
    requires k <= |list| && forall i | 0 <= i < k :: Named(n, list[i], name) <==> Named(fs, list[i], name)
    ensures NothingBefore(n, list, skip, k, name) <==> NothingBefore(fs, list, skip, k, name)
  {
  }

  /** Renamed within its directory, the entry is what its new name resolves to if and
      only if nothing before it but the replaced entry had that name. */
  lemma RenamedIsFoundIff(fs: seq<FSEntry>, dir: nat, fromName: Name, toName: Name, k: nat)
    requires Structured(fs) && IsDirAt(fs, dir) && k < |fs[dir].contents.list| && fromName != toName
    requires FirstNamed(fs, fs[dir].contents.list, fromName) == Some(fs[dir].contents.list[k])
    ensures fs[dir].contents.list[k] < |fs|
    ensures var list := fs[dir].contents.list; var n := Renamed(fs, dir, dir, list[k], toName);
      FirstNamed(n, n[dir].contents.list, toName) == Some(list[k]) <==>
      NothingBefore(fs, list, FirstNamed(fs, list, toName), k, toName)
  {
    var list := fs[dir].contents.list;
    var target := FirstNamed(fs, list, toName);
    var n := Renamed(fs, dir, dir, list[k], toName);
    ListEntries(fs, dir, k);
    RenamedInPlace(fs, dir, list[k], toName);
    FoundInListIff(n, list, target, k, toName);
    NamedElsewhere(fs, n, list, target, k, toName);
  }

  lemma ListEntries(fs: seq<FSEntry>, dir: nat, k: nat)
    requires Structured(fs) && IsDirAt(fs, dir) && k < |fs[dir].contents.list|
    ensures var list := fs[dir].contents.list;
      list[k] < |fs| && list[k] !in list[..k] && forall i | 0 <= i < k :: list[i] != list[k] && list[i] < |fs|
  {
    forall i | 0 <= i <= k ensures fs[dir].contents.list[i] < |fs| {
      assert ListedIn(fs, dir, fs[dir].contents.list[i]);
    }
  }

  lemma RenamedInPlace(fs: seq<FSEntry>, dir: nat, id: FileId, name: Name)
    requires IsDirAt(fs, dir) && id < |fs|
    ensures var n := Renamed(fs, dir, dir, id, name);
      && |n| == |fs| && IsDirAt(n, dir) && n[id].name == name
      && n[dir].contents.list == Skipping(fs[dir].contents.list, FirstNamed(fs, fs[dir].contents.list, name))
      && forall i | 0 <= i < |fs| && i != id :: n[i].name == fs[i].name
  {
  }

  /** A new entry of a directory is what its name resolves to if and only if the
      name was not taken; a duplicate stays hidden behind the older entry. */
  lemma CreatedIsFoundIff(fs: seq<FSEntry>, dir: nat, entry: FSEntry)
    requires Structured(fs) && IsDirAt(fs, dir) && entry.id == |fs|
    ensures var n := Pushed(fs, dir, entry); var was := FirstNamed(fs, fs[dir].contents.list, entry.name);
      FirstNamed(n, n[dir].contents.list, entry.name) == if was.Some? then was else Some(entry.id)
  {
    forall x | x in fs[dir].contents.list ensures x < |fs| {
      assert ListedIn(fs, dir, x);
    }
    PushedFinds(fs, dir, entry);
  }

  lemma PushedFinds(fs: seq<FSEntry>, dir: nat, entry: FSEntry)
    requires IsDirAt(fs, dir) && entry.id == |fs| && forall x | x in fs[dir].contents.list :: x < |fs|
    ensures var n := Pushed(fs, dir, entry); var was := FirstNamed(fs, fs[dir].contents.list, entry.name);
      FirstNamed(n, n[dir].contents.list, entry.name) == if was.Some? then was else Some(entry.id)
  {
    var n := Pushed(fs, dir, entry);
    var list := fs[dir].contents.list;
    FirstNamedLast(n, list, entry.id, entry.name);
    FirstNamedSame(fs, n, list, entry.name);
  }

  /** A hard link: a second entry with the same buffer and the source's attributes;
      only the source's link count goes up. */
  function Linked(fs: seq<FSEntry>, file: FileId, dir: nat, name: Name): seq<FSEntry>
    requires file < |fs| && fs[file].contents.File? && IsDirAt(fs, dir)
  {
    var n := Pushed(fs, dir, FSEntry(|fs|, fs[file].attr, name, dir, fs[file].contents));
    n[file := n[file].(attr := n[file].attr.(nlink := n[file].attr.nlink + 1))]
  }

  lemma LinkStructured(fs: seq<FSEntry>, file: FileId, dir: nat, name: Name)
    requires Structured(fs) && file < |fs| && fs[file].contents.File? && IsDirAt(fs, dir)
    ensures Structured(Linked(fs, file, dir, name)) && ListedIn(Linked(fs, file, dir, name), dir, |fs|)
    ensures forall i | 0 <= i < |fs| :: SameFile(fs[i], Linked(fs, file, dir, name)[i])
    ensures SameFile(fs[file], Linked(fs, file, dir, name)[|fs|])
  {
    var entry := FSEntry(|fs|, fs[file].attr, name, dir, fs[file].contents);
    PushStructured(fs, dir, entry);
    SameListsStructured(Pushed(fs, dir, entry), Linked(fs, file, dir, name));
  }

  /** Every entry that shares `buffer` gets the size. */
  function Sized(fs: seq<FSEntry>, buffer: Buffer, size: nat): (r: seq<FSEntry>)
    ensures |r| == |fs|
  {
    seq(|fs|, i requires 0 <= i < |fs| =>
      if fs[i].contents == File(buffer) then fs[i].(attr := fs[i].attr.(size := size, used := size)) else fs[i])
  }

  lemma SizeStructured(fs: seq<FSEntry>, buffer: Buffer, size: nat)
    requires Structured(fs)
    ensures Structured(Sized(fs, buffer, size))
  {
    SameListsStructured(fs, Sized(fs, buffer, size));
  }

  // ---- what becomes listed -----------------------------------------------

  /** Every id listed in `n` was listed in `fs`. */
  ghost predicate ListsNoMore(fs: seq<FSEntry>, n: seq<FSEntry>) {
    forall id: nat | Listed(n, id) :: Listed(fs, id)
  }

  lemma SameListsListed(fs: seq<FSEntry>, n: seq<FSEntry>)
    requires |n| == |fs| && forall i | 0 <= i < |fs| :: SamePlace(fs[i], n[i])
    ensures ListsNoMore(fs, n) && ListsNoMore(n, fs)
  {
    forall id: nat ensures Listed(n, id) <==> Listed(fs, id) {
      if d: nat :| ListedIn(n, d, id) {
        assert ListedIn(fs, d, id);
      }
      if d: nat :| ListedIn(fs, d, id) {
        assert ListedIn(n, d, id);
      }
    }
  }

  /** A push lists nothing but the new entry. */
  lemma PushListed(fs: seq<FSEntry>, dir: nat, entry: FSEntry)
    requires entry.contents.Directory? ==> entry.contents.list == []
    ensures forall id: nat | Listed(Pushed(fs, dir, entry), id) && id != entry.id :: Listed(fs, id)
  {
    forall id: nat | Listed(Pushed(fs, dir, entry), id) && id != entry.id ensures Listed(fs, id) {
      var d: nat :| ListedIn(Pushed(fs, dir, entry), d, id);
      assert ListedIn(fs, d, id);
    }
  }

  lemma DropListed(fs: seq<FSEntry>, dir: nat, id: FileId)
    requires IsDirAt(fs, dir)
    ensures ListsNoMore(fs, SetList(fs, dir, Without(fs[dir].contents.list, id)))
  {
    var n := SetList(fs, dir, Without(fs[dir].contents.list, id));
    forall x: nat | Listed(n, x) ensures Listed(fs, x) {
      var d: nat :| ListedIn(n, d, x);
      assert ListedIn(fs, d, x);
    }
  }

  lemma AdoptListed(fs: seq<FSEntry>, dir: nat, id: FileId)
    requires IsDirAt(fs, dir) && id < |fs|
    ensures forall x: nat | Listed(Adopted(fs, dir, id), x) && x != id :: Listed(fs, x)
  {
    forall x: nat | Listed(Adopted(fs, dir, id), x) && x != id ensures Listed(fs, x) {
      var d: nat :| ListedIn(Adopted(fs, dir, id), d, x);
      assert ListedIn(fs, d, x);
    }
  }

  /** A rename lists nothing that was not listed. */
  lemma RenameListed(fs: seq<FSEntry>, from: nat, to: nat, id: FileId, name: Name)
    requires IsDirAt(fs, from) && IsDirAt(fs, to) && id < |fs| && ListedIn(fs, from, id)
    ensures ListsNoMore(fs, Renamed(fs, from, to, id, name))
  {
    var target := FirstNamed(fs, fs[to].contents.list, name);
    var n1 := Cleared(fs, to, target);
    if target.Some? {
      DropListed(fs, to, target.value);
    }
    var n2 := Moved(n1, from, to, id);
    if from != to {
      DropListed(n1, from, id);
      AdoptListed(SetList(n1, from, Without(n1[from].contents.list, id)), to, id);
    }
    assert Listed(fs, id);
    SameListsListed(n2, Renamed(fs, from, to, id, name));
  }

  lemma RemoveListed(fs: seq<FSEntry>, dir: nat, id: FileId, empty: Buffer)
    requires IsDirAt(fs, dir) && id < |fs| && fs[id].contents.File?
    ensures ListsNoMore(fs, Removed(fs, dir, id, empty))
  {
    DropListed(fs, dir, id);
    SameListsListed(SetList(fs, dir, Without(fs[dir].contents.list, id)), Removed(fs, dir, id, empty));
  }

  lemma TouchListed(fs: seq<FSEntry>, dir: nat, time: nat)
    requires dir < |fs|
    ensures ListsNoMore(fs, Touched(fs, dir, time))
  {
    SameListsListed(fs, Touched(fs, dir, time));
  }

  lemma SizeListed(fs: seq<FSEntry>, buffer: Buffer, size: nat)
    ensures ListsNoMore(fs, Sized(fs, buffer, size))
  {
    SameListsListed(fs, Sized(fs, buffer, size));
  }
}
