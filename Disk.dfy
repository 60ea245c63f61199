/** The operating-system filesystem the folder operations run on, and the
    `shutil` calls they make (`copytree`, `rmtree`, `move`, `copy2`).

    Regular files are a map from absolute path to contents. Directories are
    the explicitly created ones in `dirs` together with every strict prefix
    of an existing entry, so a file always lies in an existing directory.
    Writing a file can be refused when it is opened (permissions):
    `unwritable` names the file paths where that happens, and a refused write
    changes nothing. Deleting and renaming never fail. */
module Disk {
  import opened Wrappers
  import opened Paths

  /** The operating-system exceptions a call can raise. */
  datatype FsError =
    | NotFound(path: Path)          // FileNotFoundError
    | AlreadyExists(path: Path)     // FileExistsError
    | NotADirectory(path: Path)     // NotADirectoryError
    | IsADirectory(path: Path)      // IsADirectoryError
    | WriteFailed(path: Path)       // PermissionError or OSError while writing one file
    | CopyFailed(paths: set<Path>)  // shutil.Error: the files copytree could not copy

  // -----------------------------------------------------------------------
  // Whole-tree transformations of a file map and a directory set
  // -----------------------------------------------------------------------

  /** Everything in `m` except `t` and what lies below it. */
  function Without(m: map<Path, Bytes>, t: Path): (r: map<Path, Bytes>)
    ensures forall p {:trigger p in r} :: p in r <==> p in m && !AtOrBelow(t, p)
    ensures forall p {:trigger r[p]} :: p in r ==> r[p] == m[p]
  {
    map p | p in m && !AtOrBelow(t, p) :: m[p]
  }

  /** The relative inventory `inv` placed below `dst`. */
  function Graft(inv: map<Path, Bytes>, dst: Path): (r: map<Path, Bytes>)
    ensures forall rel {:trigger dst + rel} :: rel in inv ==> dst + rel in r && r[dst + rel] == inv[rel]
    ensures forall p {:trigger p in r} :: p in r ==> AtOrBelow(dst, p) && p[|dst|..] in inv && r[p] == inv[p[|dst|..]]
  {
    var keys := set rel | rel in inv :: dst + rel;
    assert forall p :: p in keys ==> AtOrBelow(dst, p) && p[|dst|..] in inv by {
      forall p | p in keys
        ensures AtOrBelow(dst, p) && p[|dst|..] in inv
      {
        var rel :| rel in inv && p == dst + rel;
        assert p[..|dst|] == dst && p[|dst|..] == rel;
      }
    }
    assert forall rel :: rel in inv ==> dst + rel in keys && (dst + rel)[|dst|..] == rel;
    map p | p in keys :: inv[p[|dst|..]]
  }

  /** The explicit directories of `s` other than `t` and those below it. */
  function WithoutDirs(s: set<Path>, t: Path): (r: set<Path>)
    ensures forall p {:trigger p in r} :: p in r <==> p in s && !AtOrBelow(t, p)
  {
    set p | p in s && !AtOrBelow(t, p)
  }

  /** The explicit directories strictly below `root`, relative to it. */
  function RelDirs(s: set<Path>, root: Path): (r: set<Path>)
    ensures forall rel {:trigger rel in r} :: rel in r <==> rel != [] && root + rel in s
  {
    var r := set p | p in s && Below(root, p) :: p[|root|..];
    assert forall rel :: rel != [] && root + rel in s ==> rel in r by {
      forall rel | rel != [] && root + rel in s
        ensures rel in r
      {
        BelowConcat(root, rel);
      }
    }
    assert forall rel :: rel in r ==> rel != [] && root + rel in s by {
      forall rel | rel in r
        ensures rel != [] && root + rel in s
      {
        var p :| p in s && Below(root, p) && rel == p[|root|..];
        assert p == root + rel;
      }
    }
    r
  }

  /** Relative directories placed below `dst`. */
  function GraftDirs(rels: set<Path>, dst: Path): (r: set<Path>)
    ensures forall rel {:trigger dst + rel} :: rel in rels ==> dst + rel in r
    ensures forall p {:trigger p in r} :: p in r ==> AtOrBelow(dst, p) && p[|dst|..] in rels
  {
    var r := set rel | rel in rels :: dst + rel;
    assert forall p :: p in r ==> AtOrBelow(dst, p) && p[|dst|..] in rels by {
      forall p | p in r
        ensures AtOrBelow(dst, p) && p[|dst|..] in rels
      {
        var rel :| rel in rels && p == dst + rel;
        assert p[..|dst|] == dst && p[|dst|..] == rel;
      }
    }
    r
  }

  /** The directory holding a path inside `d` is `d` or inside it. */
  lemma ParentAtOrBelow(d: Path, p: Path)
    requires Below(d, p)
    ensures AtOrBelow(d, Parent(p))
  {
    assert Parent(p)[..|d|] == d;
  }

  lemma AtOrBelowConcat(d: Path, rel: Path)
    ensures AtOrBelow(d, d + rel) && (d + rel)[|d|..] == rel
  {
    assert (d + rel)[..|d|] == d;
  }

  /** Taking a subtree out and grafting its inventory back gives the map one
      started from, provided the subtree's root is not itself a file. */
  lemma Reassemble(m: map<Path, Bytes>, t: Path)
    requires t !in m
    ensures Without(m, t) + Graft(Inventory(m, t), t) == m
  {
    var r := Without(m, t) + Graft(Inventory(m, t), t);
    forall p | p in m
      ensures p in r && r[p] == m[p]
    {
      if AtOrBelow(t, p) {
        assert p != t;
        assert p == t + p[|t|..];
        assert p[|t|..] in Inventory(m, t);
      }
    }
    assert r.Keys == m.Keys;
  }

  /** Two entries of one directory with different names are apart. */
  lemma SiblingsApart(d: Path, a: string, b: string)
    requires a != b
    ensures Apart(d + [a], d + [b])
  {
    assert (d + [a])[|d|] != (d + [b])[|d|];
  }

  /** A path apart from a directory is apart from every entry of it. */
  lemma ApartChild(a: Path, d: Path, x: string)
    requires Apart(a, d)
    ensures Apart(a, d + [x])
  {
    var c := d + [x];
    assert AtOrBelow(d, c) by { assert c[..|d|] == d; }
    PrefixesNest(d, a, c);
    AtOrBelowTrans(d, c, a);
  }

  lemma AtOrBelowTrans(x: Path, y: Path, z: Path)
    requires AtOrBelow(x, y)
    ensures AtOrBelow(y, z) ==> AtOrBelow(x, z)
  {
    if AtOrBelow(y, z) {
      assert z[..|x|] == y[..|x|];
    }
  }

  /** The inventory of a freshly grafted, previously empty folder is what was grafted. */
  lemma InventoryOfGraft(m: map<Path, Bytes>, inv: map<Path, Bytes>, dst: Path)
    requires forall p :: p in m ==> !Below(dst, p)
    requires forall rel :: rel in inv ==> rel != []
    ensures Inventory(m + Graft(inv, dst), dst) == inv
  {
    var r := Inventory(m + Graft(inv, dst), dst);
    forall rel | rel in r
      ensures rel in inv
    {
      BelowConcat(dst, rel);
    }
    assert r.Keys == inv.Keys;
  }

  /** Two subtrees whose roots are not prefixes of each other share no path. */
  predicate Apart(a: Path, b: Path) {
    !AtOrBelow(a, b) && !AtOrBelow(b, a)
  }

  /** Two prefixes of the same path are prefixes of each other. */
  lemma PrefixesNest(a: Path, b: Path, p: Path)
    requires AtOrBelow(a, p)
    ensures AtOrBelow(b, p) ==> AtOrBelow(a, b) || AtOrBelow(b, a)
  {
    if AtOrBelow(b, p) {
      if |a| <= |b| {
        assert b[..|a|] == p[..|a|];
      } else {
        assert a[..|b|] == p[..|b|];
      }
    }
  }

  /** What lies at or below `a` lies outside `b` when neither contains the other. */
  lemma ApartDisjoint(a: Path, b: Path, p: Path)
    requires Apart(a, b) && AtOrBelow(a, p)
    ensures !AtOrBelow(b, p)
  {
    PrefixesNest(a, b, p);
  }

  /** Changes confined to `t` leave the inventory of a folder apart from `t` alone. */
  lemma InventoryApart(m1: map<Path, Bytes>, m2: map<Path, Bytes>, t: Path, s: Path)
    requires Without(m1, t) == Without(m2, t) && Apart(s, t)
    ensures Inventory(m1, s) == Inventory(m2, s)
  {
    forall rel | rel != []
      ensures (s + rel in m1 <==> s + rel in m2) && (s + rel in m1 ==> m1[s + rel] == m2[s + rel])
    {
      BelowConcat(s, rel);
      ApartDisjoint(s, t, s + rel);
      assert s + rel in m1 <==> s + rel in Without(m1, t);
      assert s + rel in m2 <==> s + rel in Without(m2, t);
    }
  }

  /** Once `t` is removed after being backed up to `b`, `b` is a directory
      holding the original inventory of `t` and everything else is as it was. */
  lemma RemovedBackupParts(f0: map<Path, Bytes>, g: map<Path, Bytes>, t: Path, b: Path)
    requires Apart(t, b)
    requires forall p :: p in f0 ==> !AtOrBelow(b, p)
    requires g == Without(f0 + Graft(Inventory(f0, t), b), t)
    ensures b !in g
    ensures Inventory(g, b) == Inventory(f0, t)
    ensures Without(g, b) == Without(Without(f0, b), t)
  {
    var f1 := f0 + Graft(Inventory(f0, t), b);
    BackupInventory(f0, f1, t, b);
    BackupOutside(f0, f1, t, b);
    AtOrBelowSelf(b);
  }

  /** What the rename finds at `b`: the original inventory of `t`. */
  lemma BackupInventory(f0: map<Path, Bytes>, f1: map<Path, Bytes>, t: Path, b: Path)
    requires Apart(t, b)
    requires forall p :: p in f0 ==> !AtOrBelow(b, p)
    requires f1 == f0 + Graft(Inventory(f0, t), b)
    ensures Inventory(Without(f1, t), b) == Inventory(f0, t)
  {
    InventoryApart(Without(f1, t), f1, t, b);
    InventoryOfGraft(f0, Inventory(f0, t), b);
  }

  /** What the rename leaves outside `b`: everything outside `t` as it was. */
  lemma BackupOutside(f0: map<Path, Bytes>, f1: map<Path, Bytes>, t: Path, b: Path)
    requires f1 == f0 + Graft(Inventory(f0, t), b)
    ensures Without(Without(f1, t), b) == Without(Without(f0, b), t)
  {
    WithoutGraft(f0, Inventory(f0, t), b);
    WithoutCommute(f1, t, b);
  }

  lemma WithoutCommute(m: map<Path, Bytes>, a: Path, b: Path)
    ensures Without(Without(m, a), b) == Without(Without(m, b), a)
  {
  }

  /** The rename step of a restore, once the inventory of `b` is known to be
      the original inventory of `t`. */
  lemma RenamedBack(f0: map<Path, Bytes>, g: map<Path, Bytes>, t: Path, b: Path)
    requires t !in f0 && Apart(t, b)
    requires forall p :: p in f0 ==> !AtOrBelow(b, p)
    requires Without(g, b) == Without(Without(f0, b), t)
    requires Inventory(g, b) == Inventory(f0, t)
    ensures Without(g, b) + Graft(Inventory(g, b), t) == f0
  {
    assert Without(f0, b) == f0;
    Reassemble(f0, t);
  }

  /** The directories after the same restore: those one started from, and
      `t` itself. */
  lemma RestoredDirs(d0: set<Path>, d1: set<Path>, d3: set<Path>, t: Path, b: Path)
    requires Apart(t, b)
    requires forall p :: p in d0 ==> !AtOrBelow(b, p)
    requires d1 == d0 + {b} + GraftDirs(RelDirs(d0, t), b)
    requires WithoutDirs(d3, t) == WithoutDirs(d1, t)
    ensures var d4 := WithoutDirs(d3, t); WithoutDirs(d4, b) + {t} + GraftDirs(RelDirs(d4, b), t) == d0 + {t}
  {
    var d4 := WithoutDirs(d3, t);
    var d5 := WithoutDirs(d4, b) + {t} + GraftDirs(RelDirs(d4, b), t);
    forall rel | rel != []
      ensures b + rel in d4 <==> t + rel in d0
    {
      BelowConcat(b, rel);
      BelowConcat(t, rel);
      ApartDisjoint(b, t, b + rel);
      assert b + rel in d4 <==> b + rel in d1;
      assert b + rel in GraftDirs(RelDirs(d0, t), b) ==> (b + rel)[|b|..] in RelDirs(d0, t);
    }
    forall p | p in d5
      ensures p in d0 + {t}
    {
      if p != t && AtOrBelow(t, p) {
        AtOrBelowConcat(t, p[|t|..]);
        assert p == t + p[|t|..];
      } else if p != t {
        assert p in d1 && !AtOrBelow(b, p);
      }
    }
    forall p | p in d0 + {t}
      ensures p in d5
    {
      if p != t && AtOrBelow(t, p) {
        assert p == t + p[|t|..];
        assert p[|t|..] in RelDirs(d0, t);
      } else if p != t {
        assert p in d1;
      }
    }
  }

  // -----------------------------------------------------------------------
  // The filesystem
  // -----------------------------------------------------------------------

  class FileSystem {
    var files: map<Path, Bytes>
    var dirs: set<Path>
    const unwritable: set<Path>

    constructor (files0: map<Path, Bytes>, dirs0: set<Path>, unwritable0: set<Path>)
      ensures files == files0 && dirs == dirs0 && unwritable == unwritable0
    {
      files := files0;
      dirs := dirs0;
      unwritable := unwritable0;
    }

    /** Some file or explicit directory lies strictly inside `p`. */
    predicate HasEntryBelow(p: Path)
      reads this
    {
      (exists q :: q in files && Below(p, q)) || (exists q :: q in dirs && Below(p, q))
    }

    /** `Path.exists()`. */
    predicate Exists(p: Path)
      reads this
    {
      p in files || p in dirs || HasEntryBelow(p)
    }

    /** `Path.is_file()`. */
    predicate IsFile(p: Path)
      reads this
    {
      p in files
    }

    /** `Path.is_dir()`. */
    predicate IsDir(p: Path)
      reads this
    {
      p !in files && (p in dirs || HasEntryBelow(p))
    }

    /** No ancestor of `p` is a regular file, so `p.parent.mkdir(parents=True,
        exist_ok=True)` succeeds. */
    predicate NoFileAbove(p: Path)
      reads this
    {
      forall i :: 0 <= i < |p| ==> p[..i] !in files
    }

    /** Writing the contents of `p` succeeds. */
    predicate CanWrite(p: Path)
      reads this
    {
      p != [] && p !in unwritable && p !in dirs && !HasEntryBelow(p) && NoFileAbove(p)
    }

    /** The files `root.rglob("*")` yields (filtered by `is_file()`), keyed
        by their path relative to `root`; a walk of a non-directory yields
        nothing. */
    function Walk(root: Path): (inv: map<Path, Bytes>)
      reads this
      ensures IsDir(root) ==> inv == Inventory(files, root)
      ensures !IsDir(root) ==> inv == map[]
    {
      if IsDir(root) then Inventory(files, root) else map[]
    }

    /** Nothing lies at or inside a path that does not exist. */
    lemma NothingAtOrBelow(d: Path)
      requires !Exists(d)
      ensures forall q :: q in files ==> !AtOrBelow(d, q)
      ensures forall q :: q in dirs ==> !AtOrBelow(d, q)
    {
      forall q | q in files.Keys + dirs
        ensures !AtOrBelow(d, q)
      {
        assert q[..|q|] == q;
      }
    }

    /** A path that is not a file and holds an explicit directory is a directory. */
    lemma HoldsDir(d: Path, q: Path)
      requires d !in files && q in dirs && AtOrBelow(d, q)
      ensures IsDir(d)
    {
      if |q| == |d| {
        assert q == q[..|d|];
      } else {
        assert Below(d, q);
      }
    }

    /** Whatever contains an existing path exists. */
    lemma ExistsAbove(s: Path, d: Path)
      requires Exists(s) && AtOrBelow(d, s)
      ensures Exists(d)
    {
      if s in files || s in dirs {
        if |s| == |d| {
          assert s == s[..|d|];
        } else {
          assert s in files ==> Below(d, s);
          assert s in dirs ==> Below(d, s);
        }
      } else if exists q :: q in files && Below(s, q) {
        var q :| q in files && Below(s, q);
        assert q[..|d|] == s[..|d|];
      } else {
        var q :| q in dirs && Below(s, q);
        assert q[..|d|] == s[..|d|];
      }
    }

    /** The names of the entries directly inside `d`. */
    function ChildNames(d: Path): (r: set<string>)
      reads this
      ensures forall n :: Exists(d + [n]) ==> n in r
    {
      var r := (set q | q in files && Below(d, q) :: q[|d|]) + (set q | q in dirs && Below(d, q) :: q[|d|]);
      assert forall n :: Exists(d + [n]) ==> n in r by {
        forall n | Exists(d + [n])
          ensures n in r
        {
          var p := d + [n];
          assert p[|d|] == n && Below(d, p) by { assert p[..|d|] == d; }
          if p !in files && p !in dirs {
            if exists q :: q in files && Below(p, q) {
              var q :| q in files && Below(p, q);
              assert q[..|d|] == p[..|d|] && q[|d|] == p[|d|];
            } else {
              var q :| q in dirs && Below(p, q);
              assert q[..|d|] == p[..|d|] && q[|d|] == p[|d|];
            }
          }
        }
      }
      r
    }

    /** No regular file lies inside another one, as on a real disk. */
    predicate Tidy()
      reads this
    {
      forall p, q :: p in files && q in files ==> !Below(p, q)
    }

    /** On a tidy disk no ancestor of a file is a file. */
    lemma TidyNoFileAbove(p: Path)
      requires Tidy() && p in files
      ensures NoFileAbove(p)
    {
      forall i | 0 <= i < |p|
        ensures p[..i] !in files
      {
        assert Below(p[..i], p);
      }
    }

    /** `shutil.copy2(…, p)`: writes `data`, or is refused when `p` is opened
        for writing and changes nothing. */
    method WriteFile(p: Path, data: Bytes) returns (ok: bool)
      modifies this
      ensures ok == old(CanWrite(p))
      ensures ok ==> p !in unwritable
      ensures files == (if ok then old(files)[p := data] else old(files))
      ensures dirs == old(dirs)
      ensures old(Tidy()) ==> Tidy()
    {
      ok := CanWrite(p);
      if ok {
        ghost var tidy := Tidy();
        files := files[p := data];
        if tidy {
          forall a, b | a in files && b in files
            ensures !Below(a, b)
          {
            if a == p && b != p {
              assert !Below(p, b);
            } else if b == p && a != p {
              if |a| < |p| {
                assert p[..|a|] !in old(files);
              }
            }
          }
        }
      }
    }

    /** `p.parent.mkdir(parents=True, exist_ok=True)`: creates the missing
        directories above `p`; raises when some ancestor is a regular file
        (`FileExistsError` for the parent itself, `NotADirectoryError` for
        one further up). */
    method MakeParents(p: Path) returns (r: Result<(), FsError>)
      modifies this
      ensures r.Ok? <==> old(NoFileAbove(p))
      ensures r.Err? ==> r.error == (if Parent(p) in old(files) then AlreadyExists(Parent(p)) else NotADirectory(Parent(p)))
      ensures files == old(files)
      ensures dirs == (if r.Ok? then old(dirs) + {Parent(p)} else old(dirs))
    {
      if !NoFileAbove(p) {
        if Parent(p) in files {
          return Err(AlreadyExists(Parent(p)));
        }
        return Err(NotADirectory(Parent(p)));
      }
      dirs := dirs + {Parent(p)};
      r := Ok(());
    }

    /** `Path.unlink()` on a regular file; the directory holding it stays. */
    method Unlink(p: Path)
      requires p in files
      modifies this
      ensures files == old(files) - {p}
      ensures dirs == old(dirs) + {Parent(p)}
    {
      files := files - {p};
      dirs := dirs + {Parent(p)};
    }

    /** `shutil.rmtree(t)`: `t` and everything below it disappear. */
    method RemoveTree(t: Path)
      modifies this
      ensures files == Without(old(files), t)
      ensures dirs == WithoutDirs(old(dirs), t)
      ensures !Exists(t)
    {
      files := Without(files, t);
      dirs := WithoutDirs(dirs, t);
      assert !HasEntryBelow(t) by {
        forall q | q in files
          ensures !Below(t, q)
        {
          assert !AtOrBelow(t, q);
        }
        forall q | q in dirs
          ensures !Below(t, q)
        {
          assert !AtOrBelow(t, q);
        }
      }
    }

    /** `shutil.move(src, dst)` onto a free `dst`: a rename of the whole tree. */
    method MoveTree(src: Path, dst: Path)
      requires src !in files && !Exists(dst) && Apart(src, dst)
      modifies this
      ensures files == Without(old(files), src) + Graft(old(Inventory(files, src)), dst)
      ensures dirs == WithoutDirs(old(dirs), src) + {dst} + GraftDirs(old(RelDirs(dirs, src)), dst)
    {
      var inv := Inventory(files, src);
      var rels := RelDirs(dirs, src);
      files := Without(files, src) + Graft(inv, dst);
      dirs := WithoutDirs(dirs, src) + {dst} + GraftDirs(rels, dst);
    }

    /** `shutil.copytree(src, dst)`: creates `dst` and the directories below
        `src` under it, then copies every file below `src`, in any order,
        going on past files that cannot be written and raising at the end if
        any could not. `src` is listed once, at the start. */
    method CopyTree(src: Path, dst: Path) returns (r: Result<(), FsError>)
      modifies this
      ensures !old(IsDir(src)) || old(Exists(dst)) || !old(NoFileAbove(dst)) ==>
                r.Err? && files == old(files) && dirs == old(dirs)
      ensures old(IsDir(src)) && !old(Exists(dst)) && old(NoFileAbove(dst)) ==>
                dirs == old(dirs) + {dst} + GraftDirs(old(RelDirs(dirs, src)), dst)
      ensures r.Ok? ==> old(IsDir(src)) && !old(Exists(dst))
      ensures r.Ok? ==> files == old(files) + Graft(old(Inventory(files, src)), dst)
      ensures r.Ok? ==> forall rel :: rel in old(Inventory(files, src)) ==> dst + rel !in unwritable
      ensures Without(files, dst) == Without(old(files), dst)
      ensures WithoutDirs(dirs, dst) == WithoutDirs(old(dirs), dst)
    {
      if !IsDir(src) {
        return Err(NotADirectory(src));
      }
      if Exists(dst) {
        return Err(AlreadyExists(dst));
      }
      if !NoFileAbove(dst) {
        return Err(NotADirectory(dst));
      }
      var inv := Inventory(files, src);
      dirs := dirs + {dst} + GraftDirs(RelDirs(dirs, src), dst);
      var failed := CopyFiles(inv, dst);
      if failed == {} {
        r := Ok(());
      } else {
        r := Err(CopyFailed(failed));
      }
    }

    /** The file-copying loop of `copytree`: writes every entry of `inv` below
        `dst`, in any order, and returns the paths that could not be written. */
    method CopyFiles(inv: map<Path, Bytes>, dst: Path) returns (failed: set<Path>)
      modifies this
      ensures dirs == old(dirs)
      ensures Without(files, dst) == Without(old(files), dst)
      ensures failed == {} ==> files == old(files) + Graft(inv, dst)
      ensures failed == {} ==> forall rel :: rel in inv ==> dst + rel !in unwritable
    {
      var todo := inv.Keys;
      ghost var written: map<Path, Bytes> := map[];
      failed := {};
      assert Graft(written, dst) == map[];
      while todo != {}
        invariant todo <= inv.Keys
        invariant WrittenFrom(written, inv, todo)
        invariant dirs == old(dirs)
        invariant files == old(files) + Graft(written, dst)
        invariant failed == {} ==> forall rel :: rel in inv && rel !in todo ==> rel in written && dst + rel !in unwritable
        decreases |todo|
      {
        var rel :| rel in todo;
        var ok := WriteFile(dst + rel, inv[rel]);
        if ok {
          CopyStep(old(files), written, rel, inv[rel], dst);
          WrittenStep(written, inv, todo, rel);
          written := written[rel := inv[rel]];
        } else {
          failed := failed + {dst + rel};
        }
        todo := todo - {rel};
      }
      if failed == {} {
        assert written == inv;
      }
      WithoutGraft(old(files), written, dst);
    }
  }

  /** Every file copied so far came from `inv` and has left `todo`. */
  ghost predicate WrittenFrom(written: map<Path, Bytes>, inv: map<Path, Bytes>, todo: set<Path>) {
    forall rel :: rel in written ==> rel in inv && rel !in todo && written[rel] == inv[rel]
  }

  lemma WrittenStep(written: map<Path, Bytes>, inv: map<Path, Bytes>, todo: set<Path>, rel: Path)
    requires WrittenFrom(written, inv, todo) && rel in todo && rel in inv
    ensures WrittenFrom(written[rel := inv[rel]], inv, todo - {rel})
    ensures WrittenFrom(written, inv, todo - {rel})
  {
  }

  /** Copying one more file onto a partly grafted map. */
  lemma CopyStep(f: map<Path, Bytes>, m: map<Path, Bytes>, rel: Path, v: Bytes, dst: Path)
    ensures (f + Graft(m, dst))[dst + rel := v] == f + Graft(m[rel := v], dst)
  {
    GraftAdd(m, rel, v, dst);
  }

  /** Grafting below `t` leaves everything outside `t` alone. */
  lemma WithoutGraft(a: map<Path, Bytes>, m: map<Path, Bytes>, t: Path)
    ensures Without(a + Graft(m, t), t) == Without(a, t)
  {
  }

  /** A change confined to `t` keeps every existing path apart from `t`. */
  lemma ExistsApart(fs: FileSystem, f0: map<Path, Bytes>, d0: set<Path>, p: Path, t: Path, w: Path)
    requires Without(fs.files, t) == Without(f0, t) && WithoutDirs(fs.dirs, t) == WithoutDirs(d0, t) && Apart(p, t)
    requires w in f0.Keys + d0 && AtOrBelow(p, w)
    ensures fs.Exists(p)
  {
    ApartDisjoint(p, t, w);
    assert w in Without(fs.files, t).Keys + WithoutDirs(fs.dirs, t);
    if w != p {
      assert Below(p, w);
    }
  }

  /** … and every directory apart from `t`. */
  lemma IsDirApart(fs: FileSystem, f0: map<Path, Bytes>, d0: set<Path>, p: Path, t: Path, w: Path)
    requires Without(fs.files, t) == Without(f0, t) && WithoutDirs(fs.dirs, t) == WithoutDirs(d0, t) && Apart(p, t)
    requires w in f0.Keys + d0 && AtOrBelow(p, w) && (w == p ==> p in d0) && p !in f0
    ensures fs.IsDir(p)
  {
    ExistsApart(fs, f0, d0, p, t, w);
    AtOrBelowSelf(p);
    ApartDisjoint(p, t, p);
    assert p !in Without(f0, t);
  }

  /** … and leaves missing every missing path apart from `t`. */
  lemma MissingApart(fs: FileSystem, f0: map<Path, Bytes>, d0: set<Path>, p: Path, t: Path)
    requires Without(fs.files, t) == Without(f0, t) && WithoutDirs(fs.dirs, t) == WithoutDirs(d0, t) && Apart(p, t)
    requires forall q :: q in f0.Keys + d0 ==> !AtOrBelow(p, q)
    ensures !fs.Exists(p)
  {
    forall q | AtOrBelow(p, q)
      ensures q in fs.files.Keys + fs.dirs <==> q in f0.Keys + d0
    {
      ApartDisjoint(p, t, q);
      assert q in fs.files.Keys + fs.dirs <==> q in Without(fs.files, t).Keys + WithoutDirs(fs.dirs, t);
    }
    AtOrBelowSelf(p);
  }

  /** Removing `t` leaves alone what was grafted below a `b` apart from it. */
  lemma WithoutApartGraft(a: map<Path, Bytes>, m: map<Path, Bytes>, t: Path, b: Path)
    requires Apart(t, b)
    ensures Without(a + Graft(m, b), t) == Without(a, t) + Graft(m, b)
  {
    forall p | p in Graft(m, b)
      ensures !AtOrBelow(t, p)
    {
      ApartDisjoint(b, t, p);
    }
  }

  /** The same for the explicit directories made by a copy to `b`. */
  lemma WithoutDirsApartGraft(d: set<Path>, rels: set<Path>, t: Path, b: Path)
    requires Apart(t, b)
    ensures WithoutDirs(d + {b} + GraftDirs(rels, b), t) == WithoutDirs(d, t) + {b} + GraftDirs(rels, b)
  {
    forall p | p in GraftDirs(rels, b)
      ensures !AtOrBelow(t, p)
    {
      ApartDisjoint(b, t, p);
    }
  }

  /** Copying one more file extends the grafted part of a walk by that file. */
  lemma GraftAdd(m: map<Path, Bytes>, rel: Path, v: Bytes, dst: Path)
    ensures Graft(m, dst)[dst + rel := v] == Graft(m[rel := v], dst)
  {
    var lhs := Graft(m, dst)[dst + rel := v];
    var rhs := Graft(m[rel := v], dst);
    forall p | p in rhs
      ensures p in lhs
    {
      assert p == dst + p[|dst|..];
    }
    assert (dst + rel)[|dst|..] == rel;
    assert lhs.Keys == rhs.Keys;
  }
}
