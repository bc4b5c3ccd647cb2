/** The directories of the in-memory file system as a tree: which operations keep
    every listed entry below the root. */
module DemoTree {
  import opened Wrappers
  import opened DemoTable

  /** From directory to listed entry, starting at `dir` and ending at `id`. */
  ghost predicate Chain(fs: seq<FSEntry>, dir: nat, id: FileId, chain: seq<nat>) {
    && chain != [] && chain[0] == dir && chain[|chain| - 1] == id
    && forall k | 0 < k < |chain| :: ListedIn(fs, chain[k - 1], chain[k])
  }

  /** `id` is `dir` or lies below it. */
  ghost predicate Below(fs: seq<FSEntry>, dir: nat, id: FileId) {
    exists chain :: Chain(fs, dir, id, chain)
  }

  ghost predicate Rooted(fs: seq<FSEntry>, id: FileId) {
    Below(fs, ROOT, id)
  }

  ghost predicate AllRooted(fs: seq<FSEntry>) {
    forall id | Listed(fs, id) :: Rooted(fs, id)
  }

  lemma ChainPrefix(fs: seq<FSEntry>, dir: nat, id: FileId, chain: seq<nat>, k: nat)
    requires Chain(fs, dir, id, chain) && k < |chain|
    ensures Chain(fs, dir, chain[k], chain[..k + 1])
  {
    var prefix := chain[..k + 1];
    forall i | 0 < i < |prefix| ensures ListedIn(fs, prefix[i - 1], prefix[i]) {
      assert ListedIn(fs, chain[i - 1], chain[i]);
    }
  }

  lemma BelowListed(fs: seq<FSEntry>, dir: nat, d: nat, id: FileId)
    requires Below(fs, dir, d) && ListedIn(fs, d, id)
    ensures Below(fs, dir, id)
  {
    var chain :| Chain(fs, dir, d, chain);
    var longer := chain + [id];
    forall k | 0 < k < |longer| ensures ListedIn(fs, longer[k - 1], longer[k]) {
      assert k < |chain| ==> ListedIn(fs, chain[k - 1], chain[k]);
    }
    assert Chain(fs, dir, id, longer);
  }

  /** What lies below the root does so through its one parent. */
  lemma RootedParent(fs: seq<FSEntry>, d: nat, id: FileId)
    requires Structured(fs) && Rooted(fs, id) && ListedIn(fs, d, id)
    ensures Rooted(fs, d)
  {
    var chain :| Chain(fs, ROOT, id, chain);
    var last := |chain| - 1;
    assert last > 0;
    assert ListedIn(fs, chain[last - 1], chain[last]);
    ListsDisjoint(fs, d, chain[last - 1], id);
    ChainPrefix(fs, ROOT, id, chain, last - 1);
  }

  /** Two chains to one entry agree as far back as both go. */
  lemma {:induction false} SameBack(
    fs: seq<FSEntry>, a: nat, b: nat, id: FileId, ca: seq<nat>, cb: seq<nat>, j: nat)
    requires Structured(fs) && Chain(fs, a, id, ca) && Chain(fs, b, id, cb) && j < |ca| && j < |cb|
    ensures ca[|ca| - 1 - j] == cb[|cb| - 1 - j]
  {
    if j > 0 {
      SameBack(fs, a, b, id, ca, cb, j - 1);
      var i, k := |ca| - j, |cb| - j;
      assert ListedIn(fs, ca[i - 1], ca[i]) && ListedIn(fs, cb[k - 1], cb[k]);
      ListsDisjoint(fs, ca[i - 1], cb[k - 1], ca[i]);
    }
  }

  /** Nothing on the way up from `id` to the root but what is on a given chain. */
  lemma AncestorOnChain(fs: seq<FSEntry>, chain: seq<nat>, id: FileId, above: nat)
    requires Structured(fs) && Chain(fs, ROOT, id, chain) && Below(fs, above, id)
    ensures above in chain
  {
    var other :| Chain(fs, above, id, other);
    forall k | 0 < k < |other| ensures other[k] != ROOT {
      assert ListedIn(fs, other[k - 1], other[k]);
    }
    if |other| <= |chain| {
      SameBack(fs, ROOT, above, id, chain, other, |other| - 1);
    } else {
      SameBack(fs, ROOT, above, id, chain, other, |chain| - 1);
    }
  }

  lemma {:induction false} NotBelowItself(fs: seq<FSEntry>, chain: seq<nat>, id: FileId)
    requires Structured(fs) && Chain(fs, ROOT, id, chain)
    ensures !ListedIn(fs, id, id)
    decreases |chain|
  {
    if ListedIn(fs, id, id) {
      var last := |chain| - 1;
      assert last > 0;
      assert ListedIn(fs, chain[last - 1], chain[last]);
      ListsDisjoint(fs, chain[last - 1], id, id);
      ChainPrefix(fs, ROOT, id, chain, last - 1);
      NotBelowItself(fs, chain[..last], id);
    }
  }

  // ---- rename ------------------------------------------------------------

  /** What is listed where once `id` moved from `from` to `to` and replaced `target` there. */
  ghost predicate ListedAfter(
    fs: seq<FSEntry>, from: nat, to: nat, id: FileId, target: Option<FileId>, d: nat, x: FileId)
  {
    if x == id && from != to then d == to else ListedIn(fs, d, x) && !(d == to && target == Some(x))
  }

  lemma ClearedLists(fs: seq<FSEntry>, to: nat, target: Option<FileId>, d: nat, x: FileId)
    requires IsDirAt(fs, to)
    ensures ListedIn(Cleared(fs, to, target), d, x) <==> ListedIn(fs, d, x) && !(d == to && target == Some(x))
  {
  }

  lemma MovedLists(fs: seq<FSEntry>, from: nat, to: nat, id: FileId, d: nat, x: FileId)
    requires IsDirAt(fs, from) && IsDirAt(fs, to) && id < |fs| && from != to
    ensures ListedIn(Moved(fs, from, to, id), d, x) <==>
      (ListedIn(fs, d, x) && !(d == from && x == id)) || (d == to && x == id)
  {
  }

  lemma RenamedLists(fs: seq<FSEntry>, from: nat, to: nat, id: FileId, name: Name, d: nat, x: FileId)
    requires Structured(fs) && IsDirAt(fs, to) && ListedIn(fs, from, id) && id < |fs|
    ensures ListedIn(Renamed(fs, from, to, id, name), d, x) <==>
      ListedAfter(fs, from, to, id, FirstNamed(fs, fs[to].contents.list, name), d, x)
  {
    var target := FirstNamed(fs, fs[to].contents.list, name);
    var cleared := Cleared(fs, to, target);
    ClearedLists(fs, to, target, d, x);
    if from != to {
      MovedLists(cleared, from, to, id, d, x);
      if ListedIn(fs, d, id) {
        ListsDisjoint(fs, from, d, id);
      }
    }
  }

  /** `n` lists what the rename leaves listed. */
  ghost predicate ListsAfter(
    fs: seq<FSEntry>, n: seq<FSEntry>, from: nat, to: nat, id: FileId, target: Option<FileId>)
  {
    && Structured(fs) && Structured(n) && ListedIn(fs, from, id) && IsDirAt(fs, to)
    && (target.Some? ==> ListedIn(fs, to, target.value))
    && forall d: nat, x: nat :: ListedIn(n, d, x) <==> ListedAfter(fs, from, to, id, target, d, x)
  }

  /** The replaced entry held nothing but the entry that moved. */
  ghost predicate HoldsOnly(fs: seq<FSEntry>, target: Option<FileId>, id: FileId) {
    target.Some? ==> forall x: nat | ListedIn(fs, target.value, x) :: x == id
  }

  /** Before the call: the target directory is below the root and not below the moved
      entry, unless the entry stays in its directory, and nothing else is replaced with
      its contents. */
  ghost predicate KeepsTree(fs: seq<FSEntry>, from: nat, to: nat, id: FileId, target: Option<FileId>) {
    && (from != to ==> Rooted(fs, to) && !Below(fs, id, to))
    && HoldsOnly(fs, target, id)
  }

  /** A chain that avoids the moved entry is still there. */
  lemma TargetRooted(
    fs: seq<FSEntry>, n: seq<FSEntry>, from: nat, to: nat, id: FileId, target: Option<FileId>)
    requires ListsAfter(fs, n, from, to, id, target) && from != to && KeepsTree(fs, from, to, id, target)
    ensures Rooted(n, to)
  {
    var chain :| Chain(fs, ROOT, to, chain);
    NotBelowItself(fs, chain, to);
    forall k | 0 <= k < |chain| ensures chain[k] != id {
      if chain[k] == id {
        var rest := chain[k..];
        forall i | 0 < i < |rest| ensures ListedIn(fs, rest[i - 1], rest[i]) {
          assert ListedIn(fs, chain[k + i - 1], chain[k + i]);
        }
        assert Chain(fs, id, to, rest);
      }
    }
    forall k | 0 <= k < |chain| ensures target != Some(chain[k]) {
      assert k + 1 < |chain| ==> ListedIn(fs, chain[k], chain[k + 1]);
    }
    forall k | 0 < k < |chain| ensures ListedIn(n, chain[k - 1], chain[k]) {
      assert ListedIn(fs, chain[k - 1], chain[k]);
    }
    assert Chain(n, ROOT, to, chain);
  }

  /** Then everything on a chain from the root is still below the root, but for the
      replaced entry. */
  lemma {:induction false} ChainRooted(
    fs: seq<FSEntry>, n: seq<FSEntry>, from: nat, to: nat, id: FileId, target: Option<FileId>, chain: seq<nat>, k: nat)
    requires ListsAfter(fs, n, from, to, id, target) && KeepsTree(fs, from, to, id, target)
    requires k < |chain| && Chain(fs, ROOT, chain[|chain| - 1], chain)
    ensures Rooted(n, chain[k]) || target == Some(chain[k])
  {
    if k == 0 {
      assert Chain(n, ROOT, ROOT, [ROOT]);
    } else {
      ChainRooted(fs, n, from, to, id, target, chain, k - 1);
      assert ListedIn(fs, chain[k - 1], chain[k]);
      if chain[k] == id && from != to {
        TargetRooted(fs, n, from, to, id, target);
        BelowListed(n, ROOT, to, id);
      } else if target != Some(chain[k]) {
        assert ListedIn(n, chain[k - 1], chain[k]);
        if target == Some(chain[k - 1]) {
          AfterTarget(fs, from, to, id, target, chain, k);
        }
        BelowListed(n, ROOT, chain[k - 1], chain[k]);
      }
    }
  }

  /** Below the replaced entry a chain can only go on with the one that moved. */
  lemma AfterTarget(
    fs: seq<FSEntry>, from: nat, to: nat, id: FileId, target: Option<FileId>, chain: seq<nat>, k: nat)
    requires Structured(fs) && ListedIn(fs, from, id) && target.Some? && ListedIn(fs, to, target.value)
    requires 0 < k < |chain| && Chain(fs, ROOT, chain[|chain| - 1], chain) && target == Some(chain[k - 1])
    requires HoldsOnly(fs, target, id)
    ensures chain[k] == id && from != to
  {
    assert ListedIn(fs, chain[k - 1], chain[k]);
    ListsDisjoint(fs, from, chain[k - 1], id);
    ChainPrefix(fs, ROOT, chain[|chain| - 1], chain, k - 1);
    NotBelowItself(fs, chain[..k], chain[k - 1]);
  }

  lemma KeepsTreeRooted(fs: seq<FSEntry>, n: seq<FSEntry>, from: nat, to: nat, id: FileId, target: Option<FileId>)
    requires ListsAfter(fs, n, from, to, id, target) && KeepsTree(fs, from, to, id, target) && AllRooted(fs)
    ensures AllRooted(n)
  {
    forall x | Listed(n, x) ensures Rooted(n, x) {
      var d :| ListedIn(n, d, x);
      if x == id && from != to {
        TargetRooted(fs, n, from, to, id, target);
        BelowListed(n, ROOT, to, id);
      } else {
        assert ListedIn(fs, d, x) && Listed(fs, x);
        var chain :| Chain(fs, ROOT, x, chain);
        ChainRooted(fs, n, from, to, id, target, chain, |chain| - 1);
        if target == Some(x) {
          ListsDisjoint(fs, d, to, x);
        }
      }
    }
  }

  /** The way back up from the moved entry comes to its new directory before it comes
      to the entry again. */
  lemma {:induction false} AvoidMoved(
    fs: seq<FSEntry>, n: seq<FSEntry>, from: nat, to: nat, id: FileId, target: Option<FileId>, chain: seq<nat>)
    returns (shorter: seq<nat>)
    requires ListsAfter(fs, n, from, to, id, target) && from != to && Chain(n, ROOT, to, chain)
    ensures Chain(n, ROOT, to, shorter) && id !in shorter
    decreases |chain|
  {
    if k :| 0 <= k < |chain| && chain[k] == id {
      assert ListedIn(fs, from, id);
      assert k > 0;
      assert ListedIn(n, chain[k - 1], chain[k]);
      ChainPrefix(n, ROOT, to, chain, k - 1);
      shorter := AvoidMoved(fs, n, from, to, id, target, chain[..k]);
    } else {
      shorter := chain;
    }
  }

  lemma ReplacedNotRooted(fs: seq<FSEntry>, n: seq<FSEntry>, from: nat, to: nat, id: FileId, target: FileId)
    requires ListsAfter(fs, n, from, to, id, Some(target))
    ensures !Rooted(n, target)
  {
    if Rooted(n, target) {
      var chain :| Chain(n, ROOT, target, chain);
      var last := |chain| - 1;
      assert ListedIn(fs, to, target);
      assert last > 0;
      assert ListedIn(n, chain[last - 1], target);
      if target == id {
        ListsDisjoint(fs, from, to, id);
      } else {
        ListsDisjoint(fs, chain[last - 1], to, target);
      }
    }
  }

  lemma RootedHoldsOnly(fs: seq<FSEntry>, n: seq<FSEntry>, from: nat, to: nat, id: FileId, target: Option<FileId>)
    requires ListsAfter(fs, n, from, to, id, target) && AllRooted(fs) && AllRooted(n)
    ensures HoldsOnly(fs, target, id)
  {
    if target.Some? {
      var t := target.value;
      ReplacedNotRooted(fs, n, from, to, id, t);
      assert Listed(fs, t);
      var chain :| Chain(fs, ROOT, t, chain);
      NotBelowItself(fs, chain, t);
      forall x: nat | ListedIn(fs, t, x) ensures x == id {
        if x != id {
          assert ListedIn(n, t, x) && Listed(n, x);
          RootedParent(n, t, x);
        }
      }
    }
  }

  lemma RootedKeepsTree(fs: seq<FSEntry>, n: seq<FSEntry>, from: nat, to: nat, id: FileId, target: Option<FileId>)
    requires ListsAfter(fs, n, from, to, id, target) && AllRooted(fs) && AllRooted(n)
    ensures KeepsTree(fs, from, to, id, target)
  {
    RootedHoldsOnly(fs, n, from, to, id, target);
    if from != to {
      assert ListedIn(n, to, id) && Listed(n, id);
      RootedParent(n, to, id);
      var chain :| Chain(n, ROOT, to, chain);
      var shorter := AvoidMoved(fs, n, from, to, id, target, chain);
      forall k | 0 < k < |shorter| ensures ListedIn(fs, shorter[k - 1], shorter[k]) {
        assert ListedIn(n, shorter[k - 1], shorter[k]) && shorter[k] in shorter;
      }
      assert Chain(fs, ROOT, to, shorter);
      if Below(fs, id, to) {
        AncestorOnChain(fs, shorter, to, id);
      }
    }
  }

  /** When everything listed is below the root, a rename keeps it so exactly if it
      does not move a directory into itself or below itself, nor into a directory that
      is gone, nor replace a directory that holds anything else. */
  lemma RenameKeepsRootedIff(
    fs: seq<FSEntry>, from: nat, fromName: Name, to: nat, toName: Name, id: FileId)
    requires Structured(fs) && IsDirAt(fs, from) && IsDirAt(fs, to) && AllRooted(fs)
    requires FirstNamed(fs, fs[from].contents.list, fromName) == Some(id)
    ensures id < |fs|
    ensures AllRooted(Renamed(fs, from, to, id, toName)) <==>
      KeepsTree(fs, from, to, id, FirstNamed(fs, fs[to].contents.list, toName))
  {
    var target := FirstNamed(fs, fs[to].contents.list, toName);
    RenameKeepsListedIff(fs, from, fromName, to, toName, id);
    assert ListedIn(fs, from, id);
    var n := Renamed(fs, from, to, id, toName);
    forall d: nat, x: nat ensures ListedIn(n, d, x) <==> ListedAfter(fs, from, to, id, target, d, x) {
      RenamedLists(fs, from, to, id, toName, d, x);
    }
    assert ListsAfter(fs, n, from, to, id, target);
    if KeepsTree(fs, from, to, id, target) {
      KeepsTreeRooted(fs, n, from, to, id, target);
    } else if AllRooted(n) {
      RootedKeepsTree(fs, n, from, to, id, target);
    }
  }

  /** The rename kept everything listed below the root exactly if it could. */
  ghost predicate TreeKeptIff(fs: seq<FSEntry>, n: seq<FSEntry>, from: nat, to: nat, id: FileId, toName: Name)
    requires IsDirAt(fs, to)
  {
    AllRooted(fs) ==> (AllRooted(n) <==> KeepsTree(fs, from, to, id, FirstNamed(fs, fs[to].contents.list, toName)))
  }

  // ---- creating and removing ---------------------------------------------

  lemma PushedLists(fs: seq<FSEntry>, dir: nat, entry: FSEntry, d: nat, x: FileId)
    requires entry.id == |fs| && (entry.contents.Directory? ==> entry.contents.list == [])
    ensures ListedIn(Pushed(fs, dir, entry), d, x) <==>
      ListedIn(fs, d, x) || (IsDirAt(fs, dir) && d == dir && x == |fs|)
  {
  }

  /** A new entry of a directory, file or empty directory, is below the root exactly
      if its directory is. */
  lemma PushKeepsRootedIff(fs: seq<FSEntry>, dir: nat, entry: FSEntry)
    requires Structured(fs) && AllRooted(fs) && entry.id == |fs| && entry.parent == dir
    requires entry.contents.Directory? ==> entry.contents.list == []
    ensures AllRooted(Pushed(fs, dir, entry)) <==> (IsDirAt(fs, dir) ==> Rooted(fs, dir))
  {
    var n := Pushed(fs, dir, entry);
    forall d: nat, x: nat
      ensures ListedIn(n, d, x) <==> ListedIn(fs, d, x) || (IsDirAt(fs, dir) && d == dir && x == |fs|)
    {
      PushedLists(fs, dir, entry, d, x);
    }
    PushStructured(fs, dir, entry);
    if IsDirAt(fs, dir) && AllRooted(n) {
      assert ListedIn(n, dir, |fs|) && Listed(n, |fs|);
      RootedParent(n, dir, |fs|);
      var chain :| Chain(n, ROOT, dir, chain);
      forall k | 0 < k < |chain| ensures ListedIn(fs, chain[k - 1], chain[k]) {
        assert ListedIn(n, chain[k - 1], chain[k]);
        assert k + 1 < |chain| ==> ListedIn(n, chain[k], chain[k + 1]);
      }
      assert Chain(fs, ROOT, dir, chain);
    } else if IsDirAt(fs, dir) ==> Rooted(fs, dir) {
      forall x | Listed(n, x) ensures Rooted(n, x) {
        var d :| ListedIn(n, d, x);
        if ListedIn(fs, d, x) {
          assert Listed(fs, x);
          StaysBelow(fs, n, x);
        } else {
          StaysBelow(fs, n, dir);
          BelowListed(n, ROOT, dir, x);
        }
      }
    }
  }

  lemma StaysBelow(fs: seq<FSEntry>, n: seq<FSEntry>, id: FileId)
    requires Rooted(fs, id) && forall d: nat, x: nat | ListedIn(fs, d, x) :: ListedIn(n, d, x)
    ensures Rooted(n, id)
  {
    var chain :| Chain(fs, ROOT, id, chain);
    forall k | 0 < k < |chain| ensures ListedIn(n, chain[k - 1], chain[k]) {
      assert ListedIn(fs, chain[k - 1], chain[k]);
    }
    assert Chain(n, ROOT, id, chain);
  }

  /** Removing a file keeps all others below the root. */
  lemma RemoveKeepsRooted(fs: seq<FSEntry>, dir: nat, id: FileId, empty: Buffer)
    requires Structured(fs) && AllRooted(fs) && ListedIn(fs, dir, id) && fs[id].contents.File?
    ensures AllRooted(Removed(fs, dir, id, empty))
  {
    var n := Removed(fs, dir, id, empty);
    forall x | Listed(n, x) ensures Rooted(n, x) {
      var d :| ListedIn(n, d, x);
      assert ListedIn(fs, d, x) && Listed(fs, x);
      if x == id {
        ListsDisjoint(fs, d, dir, id);
      }
      var chain :| Chain(fs, ROOT, x, chain);
      forall k | 0 < k < |chain| ensures ListedIn(n, chain[k - 1], chain[k]) {
        assert ListedIn(fs, chain[k - 1], chain[k]);
        assert k + 1 < |chain| ==> ListedIn(fs, chain[k], chain[k + 1]);
      }
      assert Chain(n, ROOT, x, chain);
    }
  }
}
