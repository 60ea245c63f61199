/** Paths, file contents and directory inventories.

    A path is the sequence of its components from the filesystem root, so
    `/home/u/repo/.claude` is `["home", "u", "repo", ".claude"]` and the root
    is `[]`; `resolve()` is taken to have been applied already. A relative
    path is the sequence of components below some root. */
module Paths {

  type Path = seq<string>

  newtype Byte = x: int | 0 <= x < 256

  type Bytes = seq<Byte>

  /** `Path.name`: the last component, empty for the root. */
  function Name(p: Path): string {
    if p == [] then "" else p[|p| - 1]
  }

  /** `Path.parent`: every component but the last; the root is its own parent. */
  function Parent(p: Path): (q: Path)
    ensures p != [] ==> q + [Name(p)] == p
    ensures p == [] ==> q == []
  {
    if p == [] then [] else p[..|p| - 1]
  }

  /** `p` lies strictly inside directory `d`. */
  predicate Below(d: Path, p: Path) {
    |d| < |p| && p[..|d|] == d
  }

  /** `p` is `d` or lies inside it. */
  predicate AtOrBelow(d: Path, p: Path) {
    |d| <= |p| && p[..|d|] == d
  }

  lemma AtOrBelowSelf(p: Path)
    ensures AtOrBelow(p, p)
  {
    assert p[..|p|] == p;
  }

  lemma BelowConcat(d: Path, rel: Path)
    requires rel != []
    ensures Below(d, d + rel) && (d + rel)[|d|..] == rel
  {
    assert (d + rel)[..|d|] == d;
  }

  /** The files strictly inside `root`, keyed by their path relative to it:
      what `root.rglob("*")` filtered by `is_file()` walks over. */
  function Inventory(files: map<Path, Bytes>, root: Path): (inv: map<Path, Bytes>)
    ensures forall rel {:trigger rel in inv} :: rel in inv <==> rel != [] && root + rel in files
    ensures forall rel {:trigger inv[rel]} :: rel in inv ==> inv[rel] == files[root + rel]
  {
    var rels := set p | p in files && Below(root, p) :: p[|root|..];
    assert forall rel :: rel != [] && root + rel in files ==> rel in rels by {
      forall rel | rel != [] && root + rel in files
        ensures rel in rels
      {
        BelowConcat(root, rel);
      }
    }
    assert forall rel :: rel in rels ==> rel != [] && root + rel in files by {
      forall rel | rel in rels
        ensures rel != [] && root + rel in files
      {
        var p :| p in files && Below(root, p) && rel == p[|root|..];
        assert p == root + rel;
      }
    }
    map rel | rel in rels :: files[root + rel]
  }

  /** The sum of the lengths of every value of `m` (picked in any order). */
  ghost function TotalSize(m: map<Path, Bytes>): nat
    decreases |m|
  {
    if m == map[] then 0
    else
      var k :| k in m;
      |m[k]| + TotalSize(m - {k})
  }

  /** Taking any one entry out first gives the same total. */
  lemma {:induction false} TotalSizeRemove(m: map<Path, Bytes>, x: Path)
    requires x in m
    ensures TotalSize(m) == |m[x]| + TotalSize(m - {x})
    decreases |m|
  {
    var k :| k in m && TotalSize(m) == |m[k]| + TotalSize(m - {k});
    if k != x {
      var rest := m - {k};
      assert x in rest;
      TotalSizeRemove(rest, x);
      assert (m - {x}) - {k} == rest - {x};
      assert k in m - {x};
      TotalSizeRemove(m - {x}, k);
      assert (m - {x})[k] == m[k];
    }
  }

  /** `m` restricted to the keys in `keys`. */
  function Restrict(m: map<Path, Bytes>, keys: set<Path>): (r: map<Path, Bytes>)
    ensures r.Keys == m.Keys * keys
    ensures forall k :: k in r ==> r[k] == m[k]
  {
    map k | k in m && k in keys :: m[k]
  }

  /** Moving one key from the pending part of a walk to the finished part adds
      exactly its size to the finished total. */
  lemma TotalSizeStep(m: map<Path, Bytes>, todo: set<Path>, x: Path)
    requires x in todo && x in m
    ensures TotalSize(Restrict(m, m.Keys - (todo - {x}))) == TotalSize(Restrict(m, m.Keys - todo)) + |m[x]|
  {
    var after := Restrict(m, m.Keys - (todo - {x}));
    var before := Restrict(m, m.Keys - todo);
    assert x in after;
    TotalSizeRemove(after, x);
    assert after - {x} == before;
  }

  /** Adding one more key to a restriction adds exactly its size. */
  lemma TotalSizeAdd(m: map<Path, Bytes>, keys: set<Path>, x: Path)
    requires x in m && x !in keys
    ensures TotalSize(Restrict(m, keys + {x})) == TotalSize(Restrict(m, keys)) + |m[x]|
  {
    var after := Restrict(m, keys + {x});
    assert x in after;
    TotalSizeRemove(after, x);
    assert after - {x} == Restrict(m, keys);
  }

  /** Taking one restricted key out first splits off exactly its size. */
  lemma RestrictRemove(m: map<Path, Bytes>, keys: set<Path>, x: Path)
    requires x in m && x in keys
    ensures TotalSize(Restrict(m, keys)) == |m[x]| + TotalSize(Restrict(m, keys - {x}))
  {
    var r := Restrict(m, keys);
    TotalSizeRemove(r, x);
    assert r - {x} == Restrict(m, keys - {x});
  }

  /** The total of a disjoint union is the sum of the totals. */
  lemma {:induction false} TotalSizeUnion(m: map<Path, Bytes>, a: set<Path>, b: set<Path>)
    requires b <= m.Keys && a !! b
    ensures TotalSize(Restrict(m, a + b)) == TotalSize(Restrict(m, a)) + TotalSize(Restrict(m, b))
    decreases |b|
  {
    if b == {} {
      assert a + b == a;
      assert Restrict(m, b) == map[];
    } else {
      var x :| x in b;
      var rest := b - {x};
      TotalSizeUnion(m, a, rest);
      assert (a + b) - {x} == a + rest;
      RestrictRemove(m, a + b, x);
      RestrictRemove(m, b, x);
    }
  }
}
