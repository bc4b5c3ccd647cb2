/** A run after which a lookup returns the directory's own id: a directory is moved
    while its parent is listed, listed at its new place, moved back and forth again
    likewise, and found to hold an entry with its own inode. */
module MirrorFsOwnId {
  import opened Wrappers
  import opened Ordered
  import opened FsMapState
  import opened FsMapInvariant
  import opened MirrorFsCalls
  import opened MirrorFsRuns
  import opened MirrorFsPromises
  import opened MirrorFsListing

  const A: Symbol := 1
  const B: Symbol := 2
  const C: Symbol := 3
  const INODES: map<InodeKey, FileId> := map[InodeKey(0, 0) := 0, InodeKey(0, 1) := 1, InodeKey(0, 2) := 2]
  const IDS: map<FileId, InodeKey> := map[0 := InodeKey(0, 0), 1 := InodeKey(0, 1), 2 := InodeKey(0, 2)]

  /** The paths of the root, of A and C in it, and of B in either. */
  datatype Places = Places(root: Path, a: Path, c: Path, ab: Path, cb: Path)

  ghost predicate Placed(p: Places) {
    && p.root + [A] == p.a && p.root + [C] == p.c && p.a + [B] == p.ab && p.c + [B] == p.cb
    && p.a != p.c && p.ab != p.cb && p.ab != p.a && p.ab != p.c && p.cb != p.a && p.cb != p.c
    && p.root != p.a && p.root != p.c && p.root != p.ab && p.root != p.cb
    && IsLeast(p.a, {p.a, p.c})
  }

  const HERE := Places([], [A], [C], [A, B], [C, B])

  lemma HerePlaced()
    ensures Placed(HERE)
  {
    assert [] + [A] == [A] && [] + [C] == [C] && [C] + [B] == [C, B] && [A] + [B] == [A, B];
    assert [A][0] != [C][0] && [A, B][0] != [C, B][0];
    assert PathLe([A], [A]) && PathLe([A], [C]);
  }

  // ---- the caches between the calls --------------------------------------

  function Root(p: Places): FSEntry {
    Node(0, p.root, {p.root}, Some(map[A := 1, C := 1]))
  }

  /** After the scan of the root that met the same directory as A and as C. */
  function First(p: Places): State {
    State(
      map[0 := Root(p), 1 := Node(1, p.a, {p.a, p.c}, None)], map[p.root := 0, p.a := 1, p.c := 1],
      map[InodeKey(0, 0) := 0, InodeKey(0, 1) := 1], map[0 := InodeKey(0, 0), 1 := InodeKey(0, 1)], 2)
  }

  /** After listing that directory, now C: it holds B. */
  function Second(p: Places): State {
    State(
      map[0 := Root(p), 1 := Node(1, p.c, {p.c}, Some(map[B := 2])), 2 := Node(2, p.cb, {p.cb}, None)],
      map[p.root := 0, p.c := 1, p.cb := 2], INODES, IDS, 3)
  }

  /** After a second such scan of the root. */
  function Third(p: Places): State {
    State(
      map[0 := Root(p), 1 := Node(1, p.c, {p.a, p.c}, Some(map[B := 2])), 2 := Node(2, p.cb, {p.cb}, None)],
      map[p.root := 0, p.c := 1, p.cb := 2, p.a := 1], INODES, IDS, 3)
  }

  /** After listing the directory as A, with B now of its own inode. */
  function Fourth(p: Places): State {
    State(
      map[0 := Root(p), 1 := Node(1, p.a, {p.a, p.c, p.ab}, Some(map[B := 1])), 2 := Node(2, p.cb, {p.cb}, None)],
      map[p.root := 0, p.c := 1, p.cb := 2, p.a := 1, p.ab := 1], INODES, IDS, 3)
  }

  /** The calls, with what the disk answers at the time of each. */
  function Calls(p: Places): seq<Call> {
    [CallReadDir(0, Probe({p.root}, Some(Folder(0))), Opened([Found(A, 1), Found(C, 1)], None)),
     CallReadDir(1, Probe({p.c}, Some(Folder(1))), Opened([Found(B, 2)], None)),
     CallReadDir(0, Probe({p.root}, Some(Folder(0))), Opened([Found(A, 1), Found(C, 1)], None)),
     CallReadDir(1, Probe({p.a, p.c}, Some(Folder(1))), Opened([Found(B, 1)], None))]
  }

  // ---- the first listing -------------------------------------------------

  function Start(p: Places): State {
    State(
      map[0 := FSEntry(p.root, {p.root}, ToAttr(1, Folder(0)), ToAttr(1, Folder(0)), None)],
      map[p.root := 0], map[InodeKey(0, 0) := 0], map[0 := InodeKey(0, 0)], 1)
  }

  function Before(p: Places): State {
    Start(p).(idToPath := map[0 := FSEntry(p.root, {p.root}, ToAttr(0, Folder(0)), ToAttr(1, Folder(0)), None)])
  }

  function Entered(p: Places): State {
    State(
      map[0 := Before(p).idToPath[0], 1 := Node(1, p.a, {p.a}, None)], map[p.root := 0, p.a := 1],
      map[InodeKey(0, 0) := 0, InodeKey(0, 1) := 1], map[0 := InodeKey(0, 0), 1 := InodeKey(0, 1)], 2)
  }

  function BothEntered(p: Places): State {
    First(p).(idToPath := map[0 := Before(p).idToPath[0], 1 := Node(1, p.a, {p.a, p.c}, None)])
  }

  lemma FirstRefresh(p: Places)
    requires Placed(p)
    ensures var o := RefreshEntry(Start(p), 0, Probe({p.root}, Some(Folder(0))), 0);
      o.Some? && o.value.1.Ok? && o.value.0 == Before(p)
  {
    var m := Start(p);
    PathLeTotal(p.root, p.root);
    assert {p.root} * {p.root} == {p.root} && {p.root} - {p.root} == {};
    Refreshed(m, 0, {p.root}, p.root, 0, 0);
    assert m.pathToId - {} == m.pathToId;
  }

  lemma FirstEntered(p: Places)
    requires Placed(p)
    ensures CreateEntry(Before(p), p.a, Folder(1)) == (Entered(p), 1)
  {
    Enters(Before(p), p.a, 1);
  }

  lemma FirstLinked(p: Places)
    requires Placed(p)
    ensures CreateEntry(Entered(p), p.c, Folder(1)) == (BothEntered(p), 1)
  {
    Links(Entered(p), p.c, 1);
    assert {p.a} + {p.c} == {p.a, p.c};
    var n := CreateEntry(Entered(p), p.c, Folder(1)).0;
    assert n.idToPath == BothEntered(p).idToPath && n.pathToId == BothEntered(p).pathToId;
  }

  lemma FirstScan(p: Places)
    requires Placed(p)
    ensures ScanItems(Before(p), p.root, [Found(A, 1), Found(C, 1)], map[])
      == (BothEntered(p), Ok(map[A := 1, C := 1]))
  {
    FirstEntered(p);
    FirstLinked(p);
    ScansTwo(Before(p), p.root, Found(A, 1), Found(C, 1));
    ScansOne(Entered(p), p.root, Found(C, 1), map[A := 1]);
  }

  lemma FirstState(p: Places)
    ensures RecordChildren(BothEntered(p), 0, map[A := 1, C := 1]) == First(p)
  {
    assert RecordChildren(BothEntered(p), 0, map[A := 1, C := 1]).idToPath == First(p).idToPath;
  }

  lemma FirstCall(p: Places)
    requires Placed(p)
    ensures Performs(Start(p), Calls(p)[0], First(p), 0)
  {
    FirstRefresh(p);
    FirstScan(p);
    var items := [Found(A, 1), Found(C, 1)];
    ListingCall(Start(p), 0, {p.root}, 0, items, Before(p), BothEntered(p), map[A := 1, C := 1]);
    FirstState(p);
  }

  // ---- the second --------------------------------------------------------

  function Moved(p: Places): State {
    First(p).(idToPath := map[0 := Root(p), 1 := Node(1, p.c, {p.c}, None)], pathToId := map[p.root := 0, p.c := 1])
  }

  function Holding(p: Places): State {
    Second(p).(
      idToPath := map[0 := Root(p), 1 := Node(1, p.c, {p.c}, None), 2 := Node(2, p.cb, {p.cb}, None)])
  }

  lemma SecondRefresh(p: Places)
    requires Placed(p)
    ensures var o := RefreshEntry(First(p), 1, Probe({p.c}, Some(Folder(1))), 0);
      o.Some? && o.value.1.Ok? && o.value.0 == Moved(p)
  {
    PathLeTotal(p.c, p.c);
    assert {p.a, p.c} * {p.c} == {p.c} && {p.a, p.c} - {p.c} == {p.a};
    Refreshed(First(p), 1, {p.c}, p.c, 1, 0);
    assert First(p).pathToId - {p.a} == Moved(p).pathToId;
  }

  lemma SecondEntered(p: Places)
    requires Placed(p)
    ensures CreateEntry(Moved(p), p.cb, Folder(2)) == (Holding(p), 2)
  {
    Enters(Moved(p), p.cb, 2);
  }

  lemma SecondState(p: Places)
    ensures RecordChildren(Holding(p), 1, map[B := 2]) == Second(p)
  {
    assert RecordChildren(Holding(p), 1, map[B := 2]).idToPath == Second(p).idToPath;
  }

  lemma SecondCall(p: Places)
    requires Placed(p)
    ensures Performs(First(p), Calls(p)[1], Second(p), 0)
  {
    SecondRefresh(p);
    SecondEntered(p);
    ScansOne(Moved(p), p.c, Found(B, 2), map[]);
    ListingCall(First(p), 1, {p.c}, 1, [Found(B, 2)], Moved(p), Holding(p), map[B := 2]);
    SecondState(p);
  }

  // ---- the third ---------------------------------------------------------

  lemma ThirdMaps(p: Places)
    ensures var e := Second(p).idToPath[1];
      Second(p).idToPath[1 := e.(aliases := e.aliases + {p.a})] == Third(p).idToPath
    ensures Second(p).pathToId[p.a := 1] == Third(p).pathToId
  {
    assert {p.c} + {p.a} == {p.a, p.c};
    assert Second(p).idToPath[1].(aliases := {p.a, p.c}) == Third(p).idToPath[1];
  }

  lemma ThirdLinked(p: Places)
    requires Placed(p)
    ensures CreateEntry(Second(p), p.a, Folder(1)) == (Third(p), 1)
  {
    Links(Second(p), p.a, 1);
    ThirdMaps(p);
  }

  lemma ThirdScan(p: Places)
    requires Placed(p)
    ensures ScanItems(Second(p), p.root, [Found(A, 1), Found(C, 1)], map[]) == (Third(p), Ok(map[A := 1, C := 1]))
  {
    ThirdLinked(p);
    Stays(Third(p), p.c, 1);
    ScansTwo(Second(p), p.root, Found(A, 1), Found(C, 1));
    ScansOne(Third(p), p.root, Found(C, 1), map[A := 1]);
  }

  lemma ThirdState(p: Places)
    ensures RecordChildren(Third(p), 0, map[A := 1, C := 1]) == Third(p)
  {
    assert RecordChildren(Third(p), 0, map[A := 1, C := 1]).idToPath == Third(p).idToPath;
  }

  lemma ThirdCall(p: Places)
    requires Placed(p)
    ensures Performs(Second(p), Calls(p)[2], Third(p), 0)
  {
    PathLeTotal(p.root, p.root);
    Confirmed(Second(p), 0, 0);
    ThirdScan(p);
    ListingCall(Second(p), 0, {p.root}, 0, [Found(A, 1), Found(C, 1)], Second(p), Third(p), map[A := 1, C := 1]);
    ThirdState(p);
  }

  // ---- the fourth --------------------------------------------------------

  function Both(p: Places): State {
    Third(p).(idToPath := Third(p).idToPath[1 := Node(1, p.a, {p.a, p.c}, Some(map[B := 2]))])
  }

  function Within(p: Places): State {
    Fourth(p).(idToPath := Fourth(p).idToPath[1 := Node(1, p.a, {p.a, p.c, p.ab}, Some(map[B := 2]))])
  }

  lemma FourthRefresh(p: Places)
    requires Placed(p)
    ensures var o := RefreshEntry(Third(p), 1, Probe({p.a, p.c}, Some(Folder(1))), 0);
      o.Some? && o.value.1.Ok? && o.value.0 == Both(p)
  {
    var both := {p.a, p.c};
    assert both * both == both && both - both == {};
    Refreshed(Third(p), 1, both, p.a, 1, 0);
    assert Third(p).pathToId - {} == Third(p).pathToId;
  }

  lemma FourthLinked(p: Places)
    requires Placed(p)
    ensures CreateEntry(Both(p), p.ab, Folder(1)) == (Within(p), 1)
  {
    Links(Both(p), p.ab, 1);
    assert {p.a, p.c} + {p.ab} == {p.a, p.c, p.ab};
    var n := CreateEntry(Both(p), p.ab, Folder(1)).0;
    assert n.idToPath == Within(p).idToPath && n.pathToId == Within(p).pathToId;
  }

  lemma FourthState(p: Places)
    ensures RecordChildren(Within(p), 1, map[B := 1]) == Fourth(p)
  {
    assert RecordChildren(Within(p), 1, map[B := 1]).idToPath == Fourth(p).idToPath;
  }

  lemma FourthCall(p: Places)
    requires Placed(p)
    ensures Performs(Third(p), Calls(p)[3], Fourth(p), 0)
  {
    FourthRefresh(p);
    FourthLinked(p);
    ScansOne(Both(p), p.a, Found(B, 1), map[]);
    ListingCall(Third(p), 1, {p.a, p.c}, 1, [Found(B, 1)], Both(p), Within(p), map[B := 1]);
    FourthState(p);
  }

  // ---- the run, and the lookup after it ----------------------------------

  function States(p: Places): seq<State> {
    [Start(p), First(p), Second(p), Third(p), Fourth(p)]
  }

  lemma RunReaches(p: Places)
    requires Placed(p)
    ensures Run(States(p), Calls(p))
  {
    FirstCall(p);
    SecondCall(p);
    ThirdCall(p);
    FourthCall(p);
    assert Stepped(States(p)[0], Calls(p)[0], States(p)[1]);
    assert Stepped(States(p)[1], Calls(p)[1], States(p)[2]);
    assert Stepped(States(p)[2], Calls(p)[2], States(p)[3]);
    assert Stepped(States(p)[3], Calls(p)[3], States(p)[4]);
  }

  lemma FoundUnderOther(p: Places)
    requires Placed(p)
    ensures var m := Fourth(p);
      && FindChild(m, 1, B) == Ok(1) && FoundElsewhere(m, 1, B, Probe({p.c}, Some(Folder(1))))
      && m.idToPath[1].aliases * {p.c} == {p.c} && Least({p.c}) + [B] == p.cb && m.pathToId[p.cb] == 2
  {
    assert Fourth(p).idToPath[1].aliases * {p.c} == {p.c};
    assert Least({p.c}) == p.c;
  }

  /** Four directory listings from start-up, with moves on disk between and during
      them, lead to a cache in which B in directory 1 is that directory itself. When
      then only C is left on disk, a lookup of B, which is gone, still returns the
      directory's id, and B is another entry afterwards. */
  lemma OwnIdFound(disk: LookupDisk, depth: nat)
    requires disk.child == Probe({HERE.c}, Some(Folder(1))) && !disk.exists_
    ensures Start(HERE) == Initial(Folder(0)) && Run(States(HERE), Calls(HERE))
    ensures var m := States(HERE)[4]; var o := Lookup(m, 1, B, disk, depth);
      && m.idToPath[1].name + [B] !in disk.child.present
      && o.Some? && o.value.1 == Ok(1) && FindChild(o.value.0, 1, B) == Ok(2)
  {
    HerePlaced();
    RunReaches(HERE);
    FoundUnderOther(HERE);
    RunKeepsInvariant(Folder(0), States(HERE), Calls(HERE));
    assert Inv(States(HERE)[4]);
    LookupOwnId(Fourth(HERE), 1, B, disk, depth);
  }
}
