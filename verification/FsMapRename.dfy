/** rename_path_prefix: safe in every order, and exactly when it is a relabelling. */
module FsMapRename {
  import opened Wrappers
  import opened Ordered
  import opened FsMapState
  import opened FsMapInvariant

  // ---- safety, for every order and every pair of prefixes -----------------

  /** Moves still to be applied: sources differ, and each id lists its source. */
  ghost predicate Pending(m: State, moves: seq<Move>) {
    && (forall i | 0 <= i < |moves| :: Lists(m, moves[i].id, moves[i].source))
    && (forall i, j | 0 <= i < j < |moves| :: moves[i].source != moves[j].source)
  }

  lemma MoveOneKeeps(m: State, u: Move)
    requires Inv(m) && Lists(m, u.id, u.source)
    ensures Inv(MoveOne(m, u)) && Stable(m, MoveOne(m, u))
  {
    var n := MoveOne(m, u);
    forall p | p in n.pathToId ensures Lists(n, n.pathToId[p], p) {
      assert p != u.target ==> Lists(m, m.pathToId[p], p);
    }
    forall i | i in n.idToPath ensures Lists(n, i, n.idToPath[i].name) {
      assert Lists(m, i, m.idToPath[i].name);
    }
  }

  lemma MoveOnePending(m: State, moves: seq<Move>)
    requires moves != [] && Pending(m, moves)
    ensures Pending(MoveOne(m, moves[0]), moves[1..])
  {
    var n := MoveOne(m, moves[0]);
    forall i | 0 <= i < |moves[1..]| ensures Lists(n, moves[1..][i].id, moves[1..][i].source) {
      assert moves[1..][i] == moves[i + 1];
      assert Lists(m, moves[i + 1].id, moves[i + 1].source) && moves[0].source != moves[i + 1].source;
    }
  }

  lemma {:induction false} MoveAllKeeps(m: State, moves: seq<Move>)
    requires Inv(m) && Pending(m, moves)
    ensures Inv(MoveAll(m, moves)) && Stable(m, MoveAll(m, moves))
    decreases moves
  {
    if moves != [] {
      MoveOneKeeps(m, moves[0]);
      MoveOnePending(m, moves);
      MoveAllKeeps(MoveOne(m, moves[0]), moves[1..]);
      StableTransitive(m, MoveOne(m, moves[0]), MoveAll(m, moves));
    }
  }

  lemma ListingWithin(m: State, from: Path, order: seq<Path>)
    requires IsListing(order, Below(m, from))
    ensures forall i | 0 <= i < |order| :: order[i] in m.pathToId && from <= order[i]
  {
    forall i | 0 <= i < |order| ensures order[i] in m.pathToId && from <= order[i] {
      assert order[i] in order && order[i] in Below(m, from);
    }
  }

  lemma MovesPending(m: State, from: Path, to: Path, order: seq<Path>)
    requires Inv(m) && IsListing(order, Below(m, from))
    requires forall i | 0 <= i < |order| :: order[i] in m.pathToId && from <= order[i]
    ensures Pending(m, MovesFor(m, from, to, order))
  {
    var moves := MovesFor(m, from, to, order);
    forall i | 0 <= i < |moves| ensures Lists(m, moves[i].id, moves[i].source) {
      assert Lists(m, m.pathToId[order[i]], order[i]);
    }
  }

  /** The index invariant survives any rename, clashing or not, in any iteration order. */
  lemma RenameKeeps(m: State, from: Path, to: Path, order: seq<Path>)
    requires Inv(m) && IsListing(order, Below(m, from))
    ensures Inv(RenamePrefix(m, from, to, order)) && Stable(m, RenamePrefix(m, from, to, order))
  {
    if from != to {
      ListingWithin(m, from, order);
      MovesPending(m, from, to, order);
      MoveAllKeeps(m, MovesFor(m, from, to, order));
    }
  }

  // ---- exactness ---------------------------------------------------------

  /** No moved path lands on a path that is itself moved. */
  ghost predicate NoChain(m: State, from: Path, to: Path) {
    forall p | p in Below(m, from) :: Rebase(p, from, to) !in Below(m, from)
  }

  /** A path that some cached path below `from` moves to. */
  ghost predicate IsTarget(m: State, from: Path, to: Path, q: Path) {
    to <= q && Rebase(q, to, from) in Below(m, from)
  }

  ghost predicate OverlaidAt(m: State, n: State, from: Path, to: Path, q: Path) {
    if IsTarget(m, from, to, q) then MapsTo(n, q, m.pathToId[Rebase(q, to, from)])
    else if from <= q then q !in n.pathToId
    else SameMapping(m, n, q)
  }

  /** `n` is `m` with its paths below `from` laid over those below `to`: a moved path
      takes the place of whatever had its new name, and every other path stays. */
  ghost predicate Overlaid(m: State, n: State, from: Path, to: Path) {
    forall q :: OverlaidAt(m, n, from, to, q)
  }

  /** No moved path lands on a path that is itself moved or belongs to another id. */
  ghost predicate NoClash(m: State, from: Path, to: Path) {
    forall p | p in Below(m, from) ::
      var q := Rebase(p, from, to); q in m.pathToId ==> !(from <= q) && m.pathToId[q] == m.pathToId[p]
  }

  /** `n` maps to++s where `m` mapped from++s, and agrees with `m` on every other path. */
  ghost predicate Relabelled(m: State, n: State, from: Path, to: Path) {
    && (forall p | p in Below(m, from) ::
      Rebase(p, from, to) in n.pathToId && n.pathToId[Rebase(p, from, to)] == m.pathToId[p])
    && (forall p | p in m.pathToId && !(from <= p) :: p in n.pathToId && n.pathToId[p] == m.pathToId[p])
    && (forall q | q in n.pathToId ::
      (q in m.pathToId && !(from <= q)) || (to <= q && Rebase(q, to, from) in Below(m, from)))
  }

  /** The alias of an entry after the rename. */
  ghost function Relabel(m: State, id: FileId, a: Path, from: Path, to: Path): Path {
    if a in m.pathToId && m.pathToId[a] == id && from <= a then Rebase(a, from, to) else a
  }

  /** Aliases and primary names moved with their paths; nothing else about any entry changed. */
  ghost predicate EntriesRelabelled(m: State, n: State, from: Path, to: Path) {
    && n.idToPath.Keys == m.idToPath.Keys
    && forall id | id in m.idToPath ::
      var e, f := m.idToPath[id], n.idToPath[id];
      && f == e.(name := f.name, aliases := f.aliases)
      && f.name == Relabel(m, id, e.name, from, to)
      && (forall a | a in e.aliases :: Relabel(m, id, a, from, to) in f.aliases)
      && (forall b | b in f.aliases :: exists a :: a in e.aliases && b == Relabel(m, id, a, from, to))
  }

  lemma RebaseInjective(p: Path, q: Path, from: Path, to: Path)
    requires from <= p && from <= q && Rebase(p, from, to) == Rebase(q, from, to)
    ensures p == q
  {
    assert Rebase(p, from, to)[|to|..] == p[|from|..] && Rebase(q, from, to)[|to|..] == q[|from|..];
    assert p == from + p[|from|..] && q == from + q[|from|..];
  }

  lemma RebaseInverse(p: Path, from: Path, to: Path)
    requires from <= p
    ensures to <= Rebase(p, from, to) && Rebase(Rebase(p, from, to), to, from) == p
  {
    assert Rebase(p, from, to)[|to|..] == p[|from|..];
    assert p == from + p[|from|..];
  }

  /** A batch of moves in which no target is a source and no two targets agree. */
  ghost predicate Disjoint(moves: seq<Move>) {
    && (forall i, j | 0 <= i < j < |moves| :: moves[i].source != moves[j].source)
    && (forall i, j | 0 <= i < j < |moves| :: moves[i].target != moves[j].target)
    && (forall i, j | 0 <= i < |moves| && 0 <= j < |moves| :: moves[i].target != moves[j].source)
  }

  lemma DisjointTail(moves: seq<Move>)
    requires Disjoint(moves) && moves != []
    ensures Disjoint(moves[1..])
    ensures forall i | 0 <= i < |moves[1..]| :: moves[1..][i] == moves[i + 1]
  {
  }

  lemma {:induction false} BatchUntouched(m: State, moves: seq<Move>, p: Path)
    requires forall i | 0 <= i < |moves| :: moves[i].source != p && moves[i].target != p
    ensures p in MoveAll(m, moves).pathToId <==> p in m.pathToId
    ensures p in m.pathToId ==> MoveAll(m, moves).pathToId[p] == m.pathToId[p]
    decreases moves
  {
    if moves != [] {
      BatchUntouched(MoveOne(m, moves[0]), moves[1..], p);
    }
  }

  /** In a disjoint batch each target ends up mapped to its id and each source unmapped. */
  lemma {:induction false} BatchTouched(m: State, moves: seq<Move>, i: nat)
    requires Disjoint(moves) && i < |moves|
    ensures moves[i].target in MoveAll(m, moves).pathToId
    ensures MoveAll(m, moves).pathToId[moves[i].target] == moves[i].id
    ensures moves[i].source !in MoveAll(m, moves).pathToId
    decreases moves
  {
    DisjointTail(moves);
    var n := MoveOne(m, moves[0]);
    if i == 0 {
      BatchUntouched(n, moves[1..], moves[0].target);
      BatchUntouched(n, moves[1..], moves[0].source);
    } else {
      BatchTouched(n, moves[1..], i - 1);
    }
  }

  function Step(u: Move, id: FileId, a: Path): Path {
    if u.id == id && u.source == a then u.target else a
  }

  /** Where a batch takes an alias of `id`. */
  function Image(moves: seq<Move>, id: FileId, a: Path): Path
    decreases moves
  {
    if moves == [] then a else Image(moves[1..], id, Step(moves[0], id, a))
  }

  ghost function Images(moves: seq<Move>, id: FileId, aliases: set<Path>): set<Path> {
    set a | a in aliases :: Image(moves, id, a)
  }

  ghost function Steps(u: Move, id: FileId, aliases: set<Path>): set<Path> {
    set a | a in aliases :: Step(u, id, a)
  }

  lemma MoveOneEntry(m: State, u: Move, id: FileId)
    requires id in m.idToPath
    ensures var e := m.idToPath[id];
      MoveOne(m, u).idToPath[id] == e.(name := Step(u, id, e.name), aliases := Steps(u, id, e.aliases))
  {
    var e := m.idToPath[id];
    var stepped := Steps(u, id, e.aliases);
    if u.id == id {
      forall b ensures b in stepped <==> b in MoveOne(m, u).idToPath[id].aliases {
        if b == u.target && u.source in e.aliases {
          assert Step(u, id, u.source) in stepped;
        } else if b in e.aliases && b != u.source {
          assert Step(u, id, b) in stepped;
        }
      }
    } else {
      assert forall a | a in e.aliases :: Step(u, id, a) == a;
      assert stepped == e.aliases;
    }
  }

  lemma ImagesCompose(moves: seq<Move>, id: FileId, aliases: set<Path>)
    requires moves != []
    ensures Images(moves[1..], id, Steps(moves[0], id, aliases)) == Images(moves, id, aliases)
  {
    forall b ensures b in Images(moves[1..], id, Steps(moves[0], id, aliases)) <==> b in Images(moves, id, aliases) {
      if a :| a in aliases && b == Image(moves, id, a) {
        assert Step(moves[0], id, a) in Steps(moves[0], id, aliases);
      }
    }
  }

  lemma {:induction false} BatchKeys(m: State, moves: seq<Move>)
    ensures MoveAll(m, moves).idToPath.Keys == m.idToPath.Keys
    decreases moves
  {
    if moves != [] {
      BatchKeys(MoveOne(m, moves[0]), moves[1..]);
    }
  }

  lemma {:induction false} BatchEntries(m: State, moves: seq<Move>, id: FileId)
    requires id in m.idToPath
    ensures id in MoveAll(m, moves).idToPath
    ensures var e := m.idToPath[id];
      MoveAll(m, moves).idToPath[id] == e.(name := Image(moves, id, e.name), aliases := Images(moves, id, e.aliases))
    decreases moves
  {
    var e := m.idToPath[id];
    if moves == [] {
      assert Images(moves, id, e.aliases) == e.aliases;
    } else {
      MoveOneEntry(m, moves[0], id);
      BatchEntries(MoveOne(m, moves[0]), moves[1..], id);
      ImagesCompose(moves, id, e.aliases);
    }
  }

  lemma {:induction false} ImageFixed(moves: seq<Move>, id: FileId, a: Path)
    requires forall i | 0 <= i < |moves| :: !(moves[i].id == id && moves[i].source == a)
    ensures Image(moves, id, a) == a
    decreases moves
  {
    if moves != [] {
      ImageFixed(moves[1..], id, a);
    }
  }

  lemma {:induction false} ImageMoved(moves: seq<Move>, i: nat)
    requires Disjoint(moves) && i < |moves|
    ensures Image(moves, moves[i].id, moves[i].source) == moves[i].target
    decreases moves
  {
    DisjointTail(moves);
    if i == 0 {
      ImageFixed(moves[1..], moves[0].id, moves[0].target);
    } else {
      ImageMoved(moves[1..], i - 1);
    }
  }

  // ---- rename as a batch --------------------------------------------------

  lemma NoChainDisjoint(m: State, from: Path, to: Path, order: seq<Path>)
    requires NoChain(m, from, to) && IsListing(order, Below(m, from))
    requires forall i | 0 <= i < |order| :: order[i] in m.pathToId && from <= order[i]
    ensures Disjoint(MovesFor(m, from, to, order))
  {
    var moves := MovesFor(m, from, to, order);
    forall i, j | 0 <= i < j < |moves| ensures moves[i].target != moves[j].target {
      if moves[i].target == moves[j].target {
        RebaseInjective(order[i], order[j], from, to);
      }
    }
    forall i, j | 0 <= i < |moves| && 0 <= j < |moves| ensures moves[i].target != moves[j].source {
      assert order[i] in Below(m, from) && order[j] in Below(m, from);
    }
  }

  lemma RelabelIsImage(m: State, from: Path, to: Path, order: seq<Path>, id: FileId, a: Path)
    requires NoChain(m, from, to) && IsListing(order, Below(m, from))
    requires forall i | 0 <= i < |order| :: order[i] in m.pathToId && from <= order[i]
    ensures Image(MovesFor(m, from, to, order), id, a) == Relabel(m, id, a, from, to)
  {
    var moves := MovesFor(m, from, to, order);
    NoChainDisjoint(m, from, to, order);
    if a in m.pathToId && m.pathToId[a] == id && from <= a {
      assert a in Below(m, from) && a in order;
      var i :| 0 <= i < |order| && order[i] == a;
      ImageMoved(moves, i);
    } else {
      ImageFixed(moves, id, a);
    }
  }

  lemma MovesOverlay(m: State, from: Path, to: Path, order: seq<Path>, q: Path)
    requires NoChain(m, from, to) && IsListing(order, Below(m, from))
    requires forall i | 0 <= i < |order| :: order[i] in m.pathToId && from <= order[i]
    ensures OverlaidAt(m, MoveAll(m, MovesFor(m, from, to, order)), from, to, q)
  {
    var moves := MovesFor(m, from, to, order);
    NoChainDisjoint(m, from, to, order);
    if IsTarget(m, from, to, q) {
      RebaseInverse(q, to, from);
      assert Rebase(q, to, from) in order;
      var i :| 0 <= i < |order| && order[i] == Rebase(q, to, from);
      BatchTouched(m, moves, i);
    } else {
      forall i | 0 <= i < |moves| ensures moves[i].target != q {
        assert order[i] in order;
        RebaseInverse(order[i], from, to);
      }
      if q in Below(m, from) {
        assert q in order;
        var i :| 0 <= i < |order| && order[i] == q;
        BatchTouched(m, moves, i);
      } else {
        forall i | 0 <= i < |moves| ensures moves[i].source != q {
          assert order[i] in order;
        }
        BatchUntouched(m, moves, q);
      }
    }
  }

  /** Without a chain a rename lays the moved subtree over the target, in any order. */
  lemma NoChainOverlays(m: State, from: Path, to: Path, order: seq<Path>)
    requires from != to && NoChain(m, from, to) && IsListing(order, Below(m, from))
    ensures Overlaid(m, RenamePrefix(m, from, to, order), from, to)
  {
    ListingWithin(m, from, order);
    forall q ensures OverlaidAt(m, RenamePrefix(m, from, to, order), from, to, q) {
      MovesOverlay(m, from, to, order, q);
    }
  }

  /** A rename is such an overlay in every order exactly when no moved path lands on a moved one. */
  lemma OverlayIff(m: State, from: Path, to: Path)
    requires from != to
    ensures NoChain(m, from, to) <==>
      forall order | IsListing(order, Below(m, from)) :: Overlaid(m, RenamePrefix(m, from, to, order), from, to)
  {
    if NoChain(m, from, to) {
      forall order | IsListing(order, Below(m, from)) ensures Overlaid(m, RenamePrefix(m, from, to, order), from, to) {
        NoChainOverlays(m, from, to, order);
      }
    } else {
      var p :| p in Below(m, from) && Rebase(p, from, to) in Below(m, from);
      RebaseInverse(p, from, to);
      var order := ChainLoses(m, from, to, p);
      assert !OverlaidAt(m, RenamePrefix(m, from, to, order), from, to, Rebase(p, from, to));
    }
  }

  lemma NoClashRelabels(m: State, from: Path, to: Path, order: seq<Path>)
    requires from != to && NoClash(m, from, to) && IsListing(order, Below(m, from))
    ensures Relabelled(m, RenamePrefix(m, from, to, order), from, to)
  {
    var n := RenamePrefix(m, from, to, order);
    NoChainOverlays(m, from, to, order);
    forall p | p in Below(m, from)
      ensures Rebase(p, from, to) in n.pathToId && n.pathToId[Rebase(p, from, to)] == m.pathToId[p]
    {
      RebaseInverse(p, from, to);
      assert OverlaidAt(m, n, from, to, Rebase(p, from, to));
    }
    forall p | p in m.pathToId && !(from <= p) ensures p in n.pathToId && n.pathToId[p] == m.pathToId[p] {
      assert OverlaidAt(m, n, from, to, p);
      if IsTarget(m, from, to, p) {
        RebaseInverse(p, to, from);
      }
    }
    forall q | q in n.pathToId
      ensures (q in m.pathToId && !(from <= q)) || (to <= q && Rebase(q, to, from) in Below(m, from))
    {
      assert OverlaidAt(m, n, from, to, q);
    }
  }

  lemma NoChainEntries(m: State, from: Path, to: Path, order: seq<Path>)
    requires from != to && NoChain(m, from, to) && IsListing(order, Below(m, from))
    ensures EntriesRelabelled(m, RenamePrefix(m, from, to, order), from, to)
  {
    ListingWithin(m, from, order);
    var moves := MovesFor(m, from, to, order);
    var n := MoveAll(m, moves);
    BatchKeys(m, moves);
    forall id | id in m.idToPath
      ensures var e, f := m.idToPath[id], n.idToPath[id];
        && f == e.(name := f.name, aliases := f.aliases)
        && f.name == Relabel(m, id, e.name, from, to)
        && (forall a | a in e.aliases :: Relabel(m, id, a, from, to) in f.aliases)
        && (forall b | b in f.aliases :: exists a :: a in e.aliases && b == Relabel(m, id, a, from, to))
    {
      BatchEntries(m, moves, id);
      forall a ensures Image(moves, id, a) == Relabel(m, id, a, from, to) {
        RelabelIsImage(m, from, to, order, id, a);
      }
    }
  }

  // ---- a clash always shows in some order ---------------------------------

  lemma ListingExists<T(!new)>(s: set<T>)
    ensures exists order: seq<T> :: IsListing(order, s)
  {
    if s == {} {
      assert IsListing([], s);
    } else {
      var x :| x in s;
      ListingExists(s - {x});
      var rest: seq<T> :| IsListing(rest, s - {x});
      ListingPrepend(x, rest, s);
      assert IsListing([x] + rest, s);
    }
  }

  lemma ListingPrepend<T(!new)>(x: T, rest: seq<T>, s: set<T>)
    requires x in s && IsListing(rest, s - {x})
    ensures IsListing([x] + rest, s)
  {
    var order := [x] + rest;
    forall i, j | 0 <= i < j < |order| ensures order[i] != order[j] {
      assert order[j] == rest[j - 1] && rest[j - 1] in rest;
    }
    forall y ensures y in order <==> y in s {
      assert y in order <==> y == x || y in rest;
    }
  }

  lemma {:induction false} AbsentStays(m: State, moves: seq<Move>, q: Path)
    requires q !in m.pathToId && forall i | 0 <= i < |moves| :: moves[i].target != q
    ensures q !in MoveAll(m, moves).pathToId
    decreases moves
  {
    if moves != [] {
      AbsentStays(MoveOne(m, moves[0]), moves[1..], q);
    }
  }

  lemma {:induction false} SourceDropped(m: State, moves: seq<Move>, q: Path, i: nat)
    requires i < |moves| && moves[i].source == q
    requires forall j | 0 <= j < |moves| :: moves[j].target != q
    ensures q !in MoveAll(m, moves).pathToId
    decreases moves
  {
    if i == 0 {
      AbsentStays(MoveOne(m, moves[0]), moves[1..], q);
    } else {
      SourceDropped(MoveOne(m, moves[0]), moves[1..], q, i - 1);
    }
  }

  /** When a path lands on another moved path, moving it first loses it. */
  lemma ChainLoses(m: State, from: Path, to: Path, p: Path) returns (order: seq<Path>)
    requires from != to && p in Below(m, from) && Rebase(p, from, to) in Below(m, from)
    ensures IsListing(order, Below(m, from))
    ensures Rebase(p, from, to) !in RenamePrefix(m, from, to, order).pathToId
  {
    var q := Rebase(p, from, to);
    RebaseMoves(p, from, to);
    var others := Below(m, from) - {p};
    ListingExists(others);
    var rest: seq<Path> :| IsListing(rest, others);
    ListingPrepend(p, rest, Below(m, from));
    order := [p] + rest;
    ListingWithin(m, from, order);
    var moves := MovesFor(m, from, to, order);
    assert q in others && q in rest;
    var i :| 0 <= i < |rest| && rest[i] == q;
    forall j | 0 <= j < |moves[1..]| ensures moves[1..][j].target != q {
      assert order[j + 1] == rest[j] && rest[j] in rest;
      if moves[j + 1].target == q {
        RebaseInjective(rest[j], p, from, to);
      }
    }
    assert moves[1..][i].source == q;
    SourceDropped(MoveOne(m, moves[0]), moves[1..], q, i);
  }

  lemma RebaseMoves(p: Path, from: Path, to: Path)
    requires from <= p && from != to
    ensures Rebase(p, from, to) != p
  {
    if |from| == |to| {
      assert p[..|from|] == from && Rebase(p, from, to)[..|to|] == to;
    }
  }

  /** A rename is a relabelling in every iteration order exactly when no moved
      path clashes: a condition on the cache before the call. */
  lemma RenameExactIff(m: State, from: Path, to: Path)
    requires from != to
    ensures NoClash(m, from, to) <==>
      forall order | IsListing(order, Below(m, from)) :: Relabelled(m, RenamePrefix(m, from, to, order), from, to)
  {
    if NoClash(m, from, to) {
      forall order | IsListing(order, Below(m, from))
        ensures Relabelled(m, RenamePrefix(m, from, to, order), from, to)
      {
        NoClashRelabels(m, from, to, order);
      }
    } else {
      var p :| p in Below(m, from) && var q := Rebase(p, from, to);
        q in m.pathToId && (from <= q || m.pathToId[q] != m.pathToId[p]);
      var q := Rebase(p, from, to);
      var order: seq<Path>;
      if from <= q {
        order := ChainLoses(m, from, to, p);
      } else {
        ListingExists(Below(m, from));
        order :| IsListing(order, Below(m, from));
      }
      assert !Relabelled(m, RenamePrefix(m, from, to, order), from, to);
    }
  }

  lemma RelabelledAlias(m: State, n: State, from: Path, to: Path, id: FileId, b: Path)
    requires Backward(m) && Relabelled(m, n, from, to) && EntriesRelabelled(m, n, from, to)
    requires Lists(n, id, b)
    ensures b in n.pathToId && n.pathToId[b] == id
  {
    assert id in m.idToPath;
    var a :| a in m.idToPath[id].aliases && b == Relabel(m, id, a, from, to);
    assert Lists(m, id, a);
    if from <= a {
      assert a in Below(m, from);
    }
  }

  /** The id that owned a path which was overwritten still lists it. */
  lemma OverwrittenListed(m: State, n: State, from: Path, to: Path, p: Path)
    requires Forward(m) && EntriesRelabelled(m, n, from, to)
    requires p in Below(m, from) && OverlaidAt(m, n, from, to, Rebase(p, from, to))
    requires Rebase(p, from, to) in m.pathToId && !(from <= Rebase(p, from, to))
    requires m.pathToId[Rebase(p, from, to)] != m.pathToId[p]
    ensures !Backward(n)
  {
    var q := Rebase(p, from, to);
    RebaseInverse(p, from, to);
    var id := m.pathToId[q];
    assert Lists(m, id, q) && Relabel(m, id, q, from, to) == q;
    assert Lists(n, id, q) && n.pathToId[q] != id;
  }

  lemma ClashBreaksExact(m: State, from: Path, to: Path, order: seq<Path>)
    requires Inv(m) && from != to && NoChain(m, from, to) && IsListing(order, Below(m, from))
    requires !NoClash(m, from, to)
    ensures !Backward(RenamePrefix(m, from, to, order))
  {
    NoChainOverlays(m, from, to, order);
    NoChainEntries(m, from, to, order);
    var p :| p in Below(m, from) && var q := Rebase(p, from, to);
      q in m.pathToId && (from <= q || m.pathToId[q] != m.pathToId[p]);
    assert Rebase(p, from, to) !in Below(m, from);
    OverwrittenListed(m, RenamePrefix(m, from, to, order), from, to, p);
  }

  /** Without a chain the exact index invariant survives exactly if there is no clash. */
  lemma RenameKeepsExactIff(m: State, from: Path, to: Path, order: seq<Path>)
    requires Exact(m) && from != to && NoChain(m, from, to) && IsListing(order, Below(m, from))
    ensures Exact(RenamePrefix(m, from, to, order)) <==> NoClash(m, from, to)
  {
    RenameKeeps(m, from, to, order);
    if NoClash(m, from, to) {
      NoClashRelabels(m, from, to, order);
      NoChainEntries(m, from, to, order);
      var n := RenamePrefix(m, from, to, order);
      forall id, b | Lists(n, id, b) ensures b in n.pathToId && n.pathToId[b] == id {
        RelabelledAlias(m, n, from, to, id, b);
      }
    } else {
      ClashBreaksExact(m, from, to, order);
    }
  }

  lemma NoClashNoChain(m: State, from: Path, to: Path)
    requires NoClash(m, from, to)
    ensures NoChain(m, from, to)
  {
    forall p | p in Below(m, from) ensures Rebase(p, from, to) !in Below(m, from) {
    }
  }

  lemma NoClashKeepsExact(m: State, from: Path, to: Path, order: seq<Path>)
    requires Exact(m) && from != to && NoClash(m, from, to) && IsListing(order, Below(m, from))
    ensures Exact(RenamePrefix(m, from, to, order))
  {
    NoClashNoChain(m, from, to);
    RenameKeepsExactIff(m, from, to, order);
  }

  /** Neither path extends the other. */
  predicate Apart(from: Path, to: Path) {
    !(from <= to) && !(to <= from)
  }

  lemma ApartNoChain(m: State, from: Path, to: Path)
    requires Apart(from, to)
    ensures NoChain(m, from, to)
  {
    forall p | p in Below(m, from) ensures Rebase(p, from, to) !in Below(m, from) {
      RebaseInverse(p, from, to);
      if from <= Rebase(p, from, to) {
        PrefixesComparable(from, to, Rebase(p, from, to));
        assert false;
      }
    }
  }

  /** Every descendant keeps its id under the new name, and nothing is left under the
      old one, whatever was cached under the new name before. */
  lemma DescendantsKeepIds(m: State, from: Path, to: Path, order: seq<Path>, rest: Path)
    requires Apart(from, to) && IsListing(order, Below(m, from))
    ensures var n := RenamePrefix(m, from, to, order);
      && (from + rest in m.pathToId ==> to + rest in n.pathToId && n.pathToId[to + rest] == m.pathToId[from + rest])
      && from + rest !in n.pathToId
  {
    var n := RenamePrefix(m, from, to, order);
    ApartNoChain(m, from, to);
    NoChainOverlays(m, from, to, order);
    assert OverlaidAt(m, n, from, to, to + rest) && OverlaidAt(m, n, from, to, from + rest);
    assert Rebase(to + rest, to, from) == from + rest;
    if to <= from + rest {
      PrefixesComparable(from, to, from + rest);
      assert false;
    }
  }

  lemma PrefixesComparable(a: Path, b: Path, p: Path)
    requires a <= p && b <= p
    ensures a <= b || b <= a
  {
    assert p[..|a|] == a && p[..|b|] == b;
  }
}
