/** A run that builds a cycle among the cached children: a directory is listed,
    then its child, then both are moved so that the child holds its parent. */
module MirrorFsCycle {
  import opened Wrappers
  import opened Ordered
  import opened FsMapState
  import opened FsMapInvariant
  import opened FsMapReturns
  import opened MirrorFsCalls
  import opened MirrorFsExact
  import opened MirrorFsListing

  const A: Symbol := 1
  const B: Symbol := 2
  const INODES: map<InodeKey, FileId> := map[InodeKey(0, 0) := 0, InodeKey(0, 1) := 1, InodeKey(0, 2) := 2]
  const IDS: map<FileId, InodeKey> := map[0 := InodeKey(0, 0), 1 := InodeKey(0, 1), 2 := InodeKey(0, 2)]

  /** After listing the root: it holds A. */
  const FIRST := State(
    map[0 := Node(0, [], {[]}, Some(map[A := 1])), 1 := Node(1, [A], {[A]}, None)],
    map[[] := 0, [A] := 1],
    map[InodeKey(0, 0) := 0, InodeKey(0, 1) := 1], map[0 := InodeKey(0, 0), 1 := InodeKey(0, 1)], 2)

  /** After listing A: it holds B. */
  const SECOND := State(
    map[0 := Node(0, [], {[]}, Some(map[A := 1])), 1 := Node(1, [A], {[A]}, Some(map[B := 2])),
        2 := Node(2, [A, B], {[A, B]}, None)],
    map[[] := 0, [A] := 1, [A, B] := 2], INODES, IDS, 3)

  /** After B was moved next to A and the root was listed again. */
  const THIRD := State(
    map[0 := Node(0, [], {[]}, Some(map[A := 1, B := 2])), 1 := Node(1, [A], {[A]}, Some(map[B := 2])),
        2 := Node(2, [A, B], {[A, B], [B]}, None)],
    map[[] := 0, [A] := 1, [A, B] := 2, [B] := 2], INODES, IDS, 3)

  /** After A was moved into B and B was listed. */
  const FOURTH := State(
    map[0 := Node(0, [], {[]}, Some(map[A := 1, B := 2])), 1 := Node(1, [A], {[A], [B, A]}, Some(map[B := 2])),
        2 := Node(2, [B], {[B]}, Some(map[A := 1]))],
    map[[] := 0, [A] := 1, [B] := 2, [B, A] := 1], INODES, IDS, 3)

  /** The calls, with what the disk answers at the time of each. */
  const CALLS: seq<Call> := [
    CallReadDir(0, Probe({[]}, Some(Folder(0))), Opened([Found(A, 1)], None)),
    CallReadDir(1, Probe({[A]}, Some(Folder(1))), Opened([Found(B, 2)], None)),
    CallReadDir(0, Probe({[]}, Some(Folder(0))), Opened([Found(A, 1), Found(B, 2)], None)),
    CallReadDir(2, Probe({[B]}, Some(Folder(2))), Opened([Found(A, 1)], None))]

  // ---- the run -----------------------------------------------------------

  lemma FirstCall()
    ensures Performs(Initial(Folder(0)), CALLS[0], FIRST, 0)
  {
    var m := Initial(Folder(0));
    Refreshed(m, 0, {[]}, [], 0, 0);
    var m1 := RefreshEntry(m, 0, CALLS[0].probe, 0).value.0;
    assert m1.idToPath == map[0 := FSEntry([], {[]}, ToAttr(0, Folder(0)), ToAttr(1, Folder(0)), None)];
    assert m1.pathToId == map[[] := 0];
    Enters(m1, [A], 1);
    assert [] + [A] == [A];
    var scanned := CreateEntry(m1, [A], Folder(1)).0;
    ScansOne(m1, [], Found(A, 1), map[]);
    ListingCall(m, 0, {[]}, 0, [Found(A, 1)], m1, scanned, map[A := 1]);
    assert RecordChildren(scanned, 0, map[A := 1]) == FIRST;
  }

  lemma SecondState()
    ensures var (scanned, id) := CreateEntry(FIRST, [A, B], Folder(2));
      id == 2 && RecordChildren(scanned, 1, map[B := 2]) == SECOND
  {
    Enters(FIRST, [A, B], 2);
    var n := RecordChildren(CreateEntry(FIRST, [A, B], Folder(2)).0, 1, map[B := 2]);
    assert n.idToPath == SECOND.idToPath && n.pathToId == SECOND.pathToId;
    assert n.inodeToId == INODES && n.idToInode == IDS;
  }

  lemma SecondCall()
    ensures Performs(FIRST, CALLS[1], SECOND, 0)
  {
    Confirmed(FIRST, 1, 1);
    SecondState();
    assert [A] + [B] == [A, B];
    ScansOne(FIRST, [A], Found(B, 2), map[]);
    ListingCall(FIRST, 1, {[A]}, 1, [Found(B, 2)], FIRST, CreateEntry(FIRST, [A, B], Folder(2)).0, map[B := 2]);
  }

  lemma ThirdScan()
    ensures var (n, r) := ScanItems(SECOND, [], [Found(A, 1), Found(B, 2)], map[]);
      r == Ok(map[A := 1, B := 2]) && n == CreateEntry(SECOND, [B], Folder(2)).0
  {
    assert [] + [A] == [A] && [] + [B] == [B];
    Stays(SECOND, [A], 1);
    Links(SECOND, [B], 2);
    ScansTwo(SECOND, [], Found(A, 1), Found(B, 2));
    ScansOne(SECOND, [], Found(B, 2), map[A := 1]);
  }

  /** Linking a path to an entry and recording another's children. */
  lemma Relinked(m: State, path: Path, ino: nat, dir: FileId, found: map<Symbol, FileId>)
    requires path !in m.pathToId && InodeKey(0, ino) in m.inodeToId && m.inodeToId[InodeKey(0, ino)] == ino
    requires ino in m.idToInode && ino in m.idToPath && m.idToPath[ino].fsmeta == ToAttr(ino, Folder(ino))
    requires dir in m.idToPath && dir != ino
    ensures RecordChildren(CreateEntry(m, path, Folder(ino)).0, dir, found) ==
      var d, e := m.idToPath[dir], m.idToPath[ino];
      m.(idToPath := m.idToPath[ino := e.(aliases := e.aliases + {path})]
                               [dir := d.(children := Some(found), childrenMeta := d.fsmeta)],
         pathToId := m.pathToId[path := ino])
  {
    Links(m, path, ino);
  }

  lemma ThreeEntries(a: FSEntry, b: FSEntry, c: FSEntry, a': FSEntry, c': FSEntry)
    ensures map[0 as FileId := a, 1 := b, 2 := c][2 := c'][0 := a'] == map[0 as FileId := a', 1 := b, 2 := c']
  {
  }

  lemma ThirdState()
    ensures RecordChildren(CreateEntry(SECOND, [B], Folder(2)).0, 0, map[A := 1, B := 2]) == THIRD
  {
    Relinked(SECOND, [B], 2, 0, map[A := 1, B := 2]);
    assert {[A, B]} + {[B]} == {[A, B], [B]};
    ThreeEntries(SECOND.idToPath[0], SECOND.idToPath[1], SECOND.idToPath[2], THIRD.idToPath[0], THIRD.idToPath[2]);
  }

  lemma ThirdCall()
    ensures Performs(SECOND, CALLS[2], THIRD, 0)
  {
    Confirmed(SECOND, 0, 0);
    ThirdScan();
    ThirdState();
    var scanned := CreateEntry(SECOND, [B], Folder(2)).0;
    ListingCall(SECOND, 0, {[]}, 0, [Found(A, 1), Found(B, 2)], SECOND, scanned, map[A := 1, B := 2]);
  }

  /** B is refreshed at its new place before it is listed. */
  const MOVED := State(
    THIRD.idToPath[2 := Node(2, [B], {[B]}, None)], map[[] := 0, [A] := 1, [B] := 2], INODES, IDS, 3)

  lemma FourthRefresh()
    ensures var o := RefreshEntry(THIRD, 2, Probe({[B]}, Some(Folder(2))), 0);
      o.Some? && o.value.1.Ok? && o.value.0 == MOVED
  {
    assert {[A, B], [B]} * {[B]} == {[B]} && {[A, B], [B]} - {[B]} == {[A, B]};
    Refreshed(THIRD, 2, {[B]}, [B], 2, 0);
    assert THIRD.pathToId - {[A, B]} == MOVED.pathToId;
  }

  lemma FourthState()
    ensures var (scanned, id) := CreateEntry(MOVED, [B, A], Folder(1));
      id == 1 && RecordChildren(scanned, 2, map[A := 1]) == FOURTH
  {
    Links(MOVED, [B, A], 1);
    assert {[A]} + {[B, A]} == {[A], [B, A]};
    var n := RecordChildren(CreateEntry(MOVED, [B, A], Folder(1)).0, 2, map[A := 1]);
    assert n.idToPath == FOURTH.idToPath && n.pathToId == FOURTH.pathToId;
  }

  lemma FourthCall()
    ensures Performs(THIRD, CALLS[3], FOURTH, 0)
  {
    FourthRefresh();
    FourthState();
    assert [B] + [A] == [B, A];
    ScansOne(MOVED, [B], Found(A, 1), map[]);
    ListingCall(THIRD, 2, {[B]}, 2, [Found(A, 1)], MOVED, CreateEntry(MOVED, [B, A], Folder(1)).0, map[A := 1]);
  }

  lemma LeastOfOne(s: Symbol)
    ensures LeastSymbol({s}) == s
  {
  }

  /** Whatever else the cache holds, A caching only B and B only A is such a cycle. */
  lemma MutualNeverReturns(m: State, path: Path, depth: nat)
    requires 1 in m.idToPath && m.idToPath[1].IsDirectory() && m.idToPath[1].children == Some(map[B := 2])
    requires 2 in m.idToPath && m.idToPath[2].IsDirectory() && m.idToPath[2].children == Some(map[A := 1])
    ensures ReachesCycle(m, 1) && RemoveTree(m, path, 1, depth).None?
  {
    var loop: seq<FileId> := [1, 2, 1];
    assert map[B := 2].Keys == {B} && map[A := 1].Keys == {A};
    LeastOfOne(A);
    LeastOfOne(B);
    assert HasChild(m, 1, B) && HasChild(m, 2, A);
    assert IsChild(m, 1, 2) && IsChild(m, 2, 1);
    assert FirstChild(m, 1, 2) && FirstChild(m, 2, 1);
    forall i | 0 <= i < |loop| - 1 ensures FirstChild(m, loop[i], loop[i + 1]) {
    }
    FirstCycleNeverReturns(m, loop, 0, path, depth);
    assert Chain(m, 1, loop) && loop[0] == loop[2];
  }

  lemma RunIsClean()
    ensures CleanRun([Initial(Folder(0)), FIRST, SECOND, THIRD, FOURTH], CALLS)
  {
    FirstCall();
    SecondCall();
    ThirdCall();
    FourthCall();
    var states := [Initial(Folder(0)), FIRST, SECOND, THIRD, FOURTH];
    assert [] in Initial(Folder(0)).idToPath[0].aliases * {[]};
    assert [A] in FIRST.idToPath[1].aliases * {[A]};
    assert [] in SECOND.idToPath[0].aliases * {[]};
    assert [B] in THIRD.idToPath[2].aliases * {[B]};
    assert CleanStep(states[0], CALLS[0], states[1]);
    assert CleanStep(states[1], CALLS[1], states[2]);
    assert CleanStep(states[2], CALLS[2], states[3]);
    assert CleanStep(states[3], CALLS[3], states[4]);
  }

  /** Four directory listings from start-up, with two moves on disk between them,
      leave a cycle, within the exact index invariant; then, once the disk has
      neither directory, refreshing one of them never returns. */
  lemma CycleReached()
    ensures Run([Initial(Folder(0)), FIRST, SECOND, THIRD, FOURTH], CALLS)
    ensures Exact(FOURTH) && ReachesCycle(FOURTH, 1)
    ensures forall depth :: RefreshEntry(FOURTH, 1, Probe({}, None), depth).None?
  {
    RunIsClean();
    var states := [Initial(Folder(0)), FIRST, SECOND, THIRD, FOURTH];
    CleanIsRun(states, CALLS);
    CleanRunExact(Folder(0), states, CALLS, 4);
    var kept := KeepPresent(FOURTH, 1, {});
    MutualNeverReturns(FOURTH, [A], 0);
    forall depth ensures RefreshEntry(FOURTH, 1, Probe({}, None), depth).None? {
      MutualNeverReturns(kept, kept.idToPath[1].name, depth);
    }
  }
}
