/** The orders the cache's BTreeSet and BTreeMap iterate in: interned symbols
    by number, paths lexicographically. */
module Ordered {
  type Symbol = nat
  type Path = seq<Symbol>

  predicate PathLe(a: Path, b: Path) {
    a == [] || (b != [] && (a[0] < b[0] || (a[0] == b[0] && PathLe(a[1..], b[1..]))))
  }

  lemma {:induction false} PathLeTotal(a: Path, b: Path)
    ensures PathLe(a, b) || PathLe(b, a)
  {
    if a != [] && b != [] {
      PathLeTotal(a[1..], b[1..]);
    }
  }

  lemma {:induction false} PathLeAntisymmetric(a: Path, b: Path)
    requires PathLe(a, b) && PathLe(b, a)
    ensures a == b
  {
    if a != [] {
      PathLeAntisymmetric(a[1..], b[1..]);
      assert a == [a[0]] + a[1..] && b == [b[0]] + b[1..];
    }
  }

  lemma {:induction false} PathLeTransitive(a: Path, b: Path, c: Path)
    requires PathLe(a, b) && PathLe(b, c)
    ensures PathLe(a, c)
  {
    if a != [] && a[0] == b[0] == c[0] {
      PathLeTransitive(a[1..], b[1..], c[1..]);
    }
  }

  predicate IsLeast(p: Path, s: set<Path>) {
    p in s && forall q | q in s :: PathLe(p, q)
  }

  lemma LeastExists(s: set<Path>)
    requires s != {}
    ensures exists p :: IsLeast(p, s)
  {
    var p :| p in s;
    var rest := s - {p};
    PathLeTotal(p, p);
    if rest == {} {
      assert s == {p};
      assert IsLeast(p, s);
    } else {
      LeastExists(rest);
      var q :| IsLeast(q, rest);
      PathLeTotal(p, q);
      if PathLe(p, q) {
        forall r | r in rest ensures PathLe(p, r) {
          PathLeTransitive(p, q, r);
        }
        assert IsLeast(p, s);
      } else {
        assert IsLeast(q, s);
      }
    }
  }

  lemma LeastUnique(p: Path, q: Path, s: set<Path>)
    requires IsLeast(p, s) && IsLeast(q, s)
    ensures p == q
  {
    PathLeAntisymmetric(p, q);
  }

  /** The first path a BTreeSet yields. */
  ghost function Least(s: set<Path>): (p: Path)
    requires s != {}
    ensures IsLeast(p, s)
  {
    LeastExists(s);
    var p :| IsLeast(p, s);
    p
  }

  predicate IsLeastSymbol(k: Symbol, s: set<Symbol>) {
    k in s && forall j | j in s :: k <= j
  }

  lemma LeastSymbolExists(s: set<Symbol>)
    requires s != {}
    ensures exists k :: IsLeastSymbol(k, s)
  {
    var k :| k in s;
    var rest := s - {k};
    if rest == {} {
      assert s == {k};
      assert IsLeastSymbol(k, s);
    } else {
      LeastSymbolExists(rest);
      var q :| IsLeastSymbol(q, rest);
      assert forall j | j in s :: j == k || j in rest;
      assert IsLeastSymbol(if k <= q then k else q, s);
    }
  }

  /** The first key of a BTreeMap. */
  ghost function LeastSymbol(s: set<Symbol>): (k: Symbol)
    requires s != {}
    ensures IsLeastSymbol(k, s)
  {
    LeastSymbolExists(s);
    var k :| IsLeastSymbol(k, s);
    k
  }

  /** The symbols of a set in ascending order. */
  ghost function Ascending(s: set<Symbol>): (r: seq<Symbol>)
    ensures forall k :: k in r <==> k in s
  {
    if s == {} then []
    else
      var k := LeastSymbol(s);
      [k] + Ascending(s - {k})
  }

  ghost predicate Increasing(names: seq<Symbol>) {
    forall i, j | 0 <= i < j < |names| :: names[i] < names[j]
  }

  lemma {:induction false} AscendingSorted(s: set<Symbol>)
    ensures Increasing(Ascending(s))
  {
    if s != {} {
      var k := LeastSymbol(s);
      AscendingSorted(s - {k});
      forall j | 1 <= j < |Ascending(s)|
        ensures k < Ascending(s)[j]
      {
        assert Ascending(s)[j] in Ascending(s - {k});
      }
    }
  }
}
