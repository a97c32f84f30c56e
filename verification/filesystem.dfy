/**
 * The host filesystem as the extractor sees it: a map from resolved paths
 * to directories and regular files, and the library calls that change it
 * (`shutil.rmtree`, `os.remove`, `os.makedirs(..., exist_ok=True)` and
 * `open(..., 'wb').write`).  Each call is one step; its effect is given by
 * a function, and the `Disk` object applies it.
 */
module FileSystem {
  import opened Bytes
  import opened Paths
  import opened Results

  datatype Node = Dir | File(data: Bytes)

  type Tree = map<Path, Node>

  function Parent(p: Path): Path
    requires p != []
  {
    p[..|p| - 1]
  }

  /** A real directory tree: the root is a directory and every entry hangs off a directory. */
  ghost predicate WellFormed(t: Tree)
  {
    && [] in t && t[[]] == Dir
    && forall p :: p in t && p != [] ==> Parent(p) in t && t[Parent(p)] == Dir
  }

  /** `t2` keeps every entry of `t` as it was. */
  ghost predicate Extends(t: Tree, t2: Tree)
  {
    forall p :: p in t ==> p in t2 && t2[p] == t[p]
  }

  /** No existing prefix of `p` (including `p`) is a regular file. */
  ghost predicate NoFileOnWay(t: Tree, p: Path)
  {
    forall k :: 0 <= k <= |p| && p[..k] in t ==> t[p[..k]] == Dir
  }

  /** In a well-formed tree every ancestor of an entry is a directory. */
  lemma {:induction false} AncestorsAreDirs(t: Tree, q: Path, j: nat)
    requires WellFormed(t) && q in t && j < |q|
    ensures q[..j] in t && t[q[..j]] == Dir
    decreases |q| - j
  {
    assert Parent(q) in t && t[Parent(q)] == Dir;
    if j < |q| - 1 {
      AncestorsAreDirs(t, Parent(q), j);
      assert Parent(q)[..j] == q[..j];
    } else {
      assert q[..j] == Parent(q);
    }
  }

  // ---------------------------------------------------------------------
  // Looking a path text up as the kernel does
  // ---------------------------------------------------------------------

  /**
   * The lookup `stat` performs, from `cur` on: every further component is
   * looked up in the path reached so far, which must therefore be a
   * directory, even for `.`, `..` and the empty component a doubled or
   * trailing `/` leaves; the path reached at the end must exist.
   */
  function Lookup(t: Tree, cur: Path, comps: seq<Bytes>): Option<Path>
    decreases |comps|
  {
    if comps == [] then (if cur in t then Some(cur) else None)
    else if cur in t && t[cur].Dir? then Lookup(t, Step(cur, comps[0]), comps[1..])
    else None
  }

  /**
   * `os.path.exists(text)`: the text as written, not its `abspath`, is
   * looked up from the root or the working directory; `''` never exists.
   * So `a/` does not exist over a regular file `a`, and `x/../y` does not
   * exist when `x` is missing, although both resolve lexically to entries.
   */
  predicate PathExists(t: Tree, cwd: Path, text: Bytes)
  {
    text != [] && Lookup(t, if IsAbsolute(text) then [] else cwd, Split(text, SLASH)).Some?
  }

  /** A successful lookup ends where lexical normalisation does. */
  lemma {:induction false} LookupFollowsWalk(t: Tree, cur: Path, comps: seq<Bytes>)
    requires Lookup(t, cur, comps).Some?
    ensures Lookup(t, cur, comps).value == Walk(cur, comps) && Walk(cur, comps) in t
    decreases |comps|
  {
    if comps != [] {
      WalkFirst(cur, comps);
      LookupFollowsWalk(t, Step(cur, comps[0]), comps[1..]);
    }
  }

  /** Whatever `os.path.exists` finds is what `abspath` names. */
  lemma PathExistsResolves(t: Tree, cwd: Path, text: Bytes)
    requires PathExists(t, cwd, text)
    ensures Abspath(cwd, text) in t
  {
    LookupFollowsWalk(t, if IsAbsolute(text) then [] else cwd, Split(text, SLASH));
  }

  /**
   * Along a walk that never climbs and ends in a plain name, every path
   * passed through lies above the end, so in a well-formed tree the lookup
   * succeeds exactly when the end exists.
   */
  lemma {:induction false} LookupDirect(t: Tree, cur: Path, comps: seq<Bytes>)
    requires WellFormed(t) && comps != []
    requires forall k :: 0 <= k < |comps| ==> comps[k] != [DOT, DOT]
    requires ValidName(comps[|comps| - 1])
    requires Walk(cur, comps) in t
    ensures Lookup(t, cur, comps) == Some(Walk(cur, comps))
    decreases |comps|
  {
    var last := comps[|comps| - 1];
    var init := comps[..|comps| - 1];
    WalkStaysBelow(cur, init);
    var p := Walk(cur, comps);
    assert p == Walk(cur, init) + [last];
    assert p[..|cur|] == cur;
    AncestorsAreDirs(t, p, |cur|);
    WalkFirst(cur, comps);
    if |comps| > 1 {
      assert comps[1..][|comps| - 2] == last;
      LookupDirect(t, Step(cur, comps[0]), comps[1..]);
    }
  }

  /** For a direct name, `os.path.exists` agrees with the lexical destination. */
  lemma PathExistsDirect(t: Tree, cwd: Path, text: Bytes)
    requires WellFormed(t) && DirectName(text)
    ensures PathExists(t, cwd, text) <==> Abspath(cwd, text) in t
  {
    if PathExists(t, cwd, text) {
      PathExistsResolves(t, cwd, text);
    }
    if Abspath(cwd, text) in t {
      assert text != [];
      LookupDirect(t, if IsAbsolute(text) then [] else cwd, Split(text, SLASH));
    }
  }

  /**
   * A trailing `/` needs a directory: over a regular file `a`, the text
   * `a/` resolves to `a` but does not exist.
   */
  lemma TrailingSlashOverFile(t: Tree, cwd: Path, name: Bytes)
    requires ValidName(name) && cwd in t && t[cwd] == Dir
    requires cwd + [name] in t && t[cwd + [name]].File?
    ensures Abspath(cwd, name + [SLASH]) == cwd + [name]
    ensures !PathExists(t, cwd, name + [SLASH])
  {
    SplitAround(name, SLASH, []);
    SplitFree(name, SLASH);
    assert name + [SLASH] == name + [SLASH] + [];
    var comps := Split(name + [SLASH], SLASH);
    assert comps == [name, []];
    assert Walk(cwd, comps) == Step(Walk(cwd, [name]), []);
    assert Walk(cwd, [name]) == Step(Walk(cwd, []), name);
    assert Lookup(t, cwd, comps) == Lookup(t, cwd + [name], [[]]);
  }

  // ---------------------------------------------------------------------
  // Effects of the library calls
  // ---------------------------------------------------------------------

  /** `shutil.rmtree(p)`: `p` and everything below it disappear. */
  function RemoveSubtree(t: Tree, p: Path): (r: Tree)
    ensures forall q :: q in r <==> q in t && !IsPrefix(p, q)
    ensures forall q :: q in r ==> r[q] == t[q]
  {
    map q | q in t && !IsPrefix(p, q) :: t[q]
  }

  /** `os.remove(p)`: only a regular file can be removed. */
  function RemoveSpec(t: Tree, p: Path): (r: Result<Tree>)
    ensures r.Ok? <==> p in t && t[p].File?
    ensures r.Ok? ==> p !in r.value && forall q :: q != p ==> (q in r.value <==> q in t)
    ensures r.Ok? ==> forall q :: q in r.value ==> r.value[q] == t[q]
    ensures r.Err? ==> r.error == if p in t then IsADirectory(p) else FileNotFound(p)
  {
    if p !in t then Err(FileNotFound(p))
    else if t[p].Dir? then Err(IsADirectory(p))
    else Ok(t - {p})
  }

  /**
   * `os.makedirs(p, exist_ok=True)`: every missing prefix of `p`, outermost
   * first, becomes a directory.  A regular file at `p` itself is a
   * `FileExistsError`; a regular file above `p` makes the `mkdir` just below
   * it fail with `NotADirectoryError` (the recursive call's
   * `FileExistsError` is swallowed and the next `mkdir` fails).
   */
  function MakeDirsSpec(t: Tree, p: Path): Result<Tree>
    decreases |p|
  {
    var above := if p == [] then Ok(t) else MakeDirsSpec(t, Parent(p));
    match above
    case Err(e) => if p != [] && e == FileExists(Parent(p)) then Err(NotADirectory(p)) else Err(e)
    case Ok(t1) =>
      if p !in t1 then Ok(t1[p := Dir])
      else if t1[p].Dir? then Ok(t1)
      else Err(FileExists(p))
  }

  /** `open(p, 'wb').write(data)`: needs a directory to hold `p`; truncates an existing file. */
  function WriteSpec(t: Tree, p: Path, data: Bytes): (r: Result<Tree>)
    ensures r.Ok? <==> p != [] && !(p in t && t[p].Dir?) && Parent(p) in t && t[Parent(p)].Dir?
    ensures r.Ok? ==> p in r.value && r.value[p] == File(data) && forall q :: q != p ==> (q in r.value <==> q in t)
    ensures r.Ok? ==> forall q :: q != p && q in t ==> r.value[q] == t[q]
  {
    if p == [] || (p in t && t[p].Dir?) then Err(IsADirectory(p))
    else if Parent(p) !in t then Err(FileNotFound(Parent(p)))
    else if t[Parent(p)].File? then Err(NotADirectory(Parent(p)))
    else Ok(t[p := File(data)])
  }

  /**
   * makedirs succeeds exactly when no prefix of the path is a regular file,
   * and then it only adds directories, one per missing prefix.  It fails
   * with `FileExistsError` exactly when the path itself is the first
   * regular file on the way, and with `NotADirectoryError` otherwise.
   */
  lemma {:induction false} MakeDirsOutcome(t: Tree, p: Path)
    ensures MakeDirsSpec(t, p).Ok? <==> NoFileOnWay(t, p)
    ensures MakeDirsSpec(t, p).Ok? ==>
      var r := MakeDirsSpec(t, p).value;
      && Extends(t, r)
      && (forall q :: q in r <==> q in t || IsPrefix(q, p))
      && (forall q :: q in r && q !in t ==> r[q] == Dir)
    ensures MakeDirsSpec(t, p).Err? ==>
      (MakeDirsSpec(t, p).error == FileExists(p) <==> p in t && t[p].File? && (p == [] || NoFileOnWay(t, Parent(p))))
    ensures MakeDirsSpec(t, p).Err? && MakeDirsSpec(t, p).error != FileExists(p) ==>
      MakeDirsSpec(t, p).error.NotADirectory?
    decreases |p|
  {
    if p != [] {
      var up := Parent(p);
      MakeDirsOutcome(t, up);
      forall k | 0 <= k <= |up| ensures up[..k] == p[..k] { }
      assert p[..|p|] == p;
      if MakeDirsSpec(t, up).Ok? {
        var t1 := MakeDirsSpec(t, up).value;
        assert !IsPrefix(p, up);
        assert p in t1 <==> p in t;
        forall q ensures IsPrefix(q, p) <==> IsPrefix(q, up) || q == p {
          if IsPrefix(q, p) && q != p {
            assert |q| < |p|;
            assert up[..|q|] == p[..|q|];
          }
        }
      } else {
        assert !NoFileOnWay(t, up);
        var k :| 0 <= k <= |up| && up[..k] in t && t[up[..k]] != Dir;
        assert p[..k] == up[..k];
      }
    } else {
      assert p[..0] == p;
      forall q ensures IsPrefix(q, p) <==> q == [] { }
    }
  }

  /** makedirs keeps the tree well formed. */
  lemma MakeDirsWellFormed(t: Tree, p: Path)
    requires WellFormed(t) && MakeDirsSpec(t, p).Ok?
    ensures WellFormed(MakeDirsSpec(t, p).value)
  {
    MakeDirsOutcome(t, p);
    var r := MakeDirsSpec(t, p).value;
    forall q | q in r && q != [] ensures Parent(q) in r && r[Parent(q)] == Dir {
      if q in t {
        assert Parent(q) in t;
      } else {
        assert IsPrefix(q, p);
        assert IsPrefix(Parent(q), p) by { assert p[..|Parent(q)|] == q[..|q| - 1]; }
        assert Parent(q) in r;
        if Parent(q) in t {
          assert Parent(q) == p[..|Parent(q)|];
        }
      }
    }
  }

  /** rmtree of a directory other than the root keeps the tree well formed. */
  lemma RemoveSubtreeWellFormed(t: Tree, p: Path)
    requires WellFormed(t) && p != []
    ensures WellFormed(RemoveSubtree(t, p))
  {
    var r := RemoveSubtree(t, p);
    assert !IsPrefix(p, []);
    forall q | q in r && q != [] ensures Parent(q) in r && r[Parent(q)] == Dir {
      assert Parent(q) in t;
    }
  }

  /** os.remove keeps the tree well formed. */
  lemma RemoveWellFormed(t: Tree, p: Path)
    requires WellFormed(t) && RemoveSpec(t, p).Ok?
    ensures WellFormed(RemoveSpec(t, p).value)
  {
  }

  /** Writing a file keeps the tree well formed. */
  lemma WriteWellFormed(t: Tree, p: Path, data: Bytes)
    requires WellFormed(t) && WriteSpec(t, p, data).Ok?
    ensures WellFormed(WriteSpec(t, p, data).value)
  {
  }

  /** The state a library call leaves behind: its effect on success, nothing on failure. */
  ghost predicate Applied(effect: Result<Tree>, before: Tree, r: Result<()>, after: Tree)
  {
    match effect
    case Ok(t) => r == Ok(()) && after == t
    case Err(e) => r == Err(e) && after == before
  }

  // ---------------------------------------------------------------------
  // The filesystem as mutable state
  // ---------------------------------------------------------------------

  /** The host filesystem and the process's working directory. */
  class Disk {
    const cwd: Path
    var tree: Tree

    ghost predicate Valid()
      reads this
    {
      WellFormed(tree) && ValidPath(cwd)
    }

    constructor (cwd: Path, tree: Tree)
      requires WellFormed(tree) && ValidPath(cwd)
      ensures Valid() && this.cwd == cwd && this.tree == tree
    {
      this.cwd := cwd;
      this.tree := tree;
    }

    /** `os.path.abspath(t)`. */
    function Resolve(t: Bytes): Path
    {
      Abspath(cwd, t)
    }

    /** `os.path.exists(text)`, on the text as written. */
    predicate Exists(text: Bytes)
      reads this
    {
      PathExists(tree, cwd, text)
    }

    /** `os.path.isdir`. */
    predicate IsDir(p: Path)
      reads this
    {
      p in tree && tree[p].Dir?
    }

    /** `os.path.isfile`. */
    predicate IsFile(p: Path)
      reads this
    {
      p in tree && tree[p].File?
    }

    /** `shutil.rmtree(p)` on a directory below the root. */
    method RemoveTree(p: Path)
      requires Valid() && p != [] && IsDir(p)
      modifies this
      ensures Valid()
      ensures tree == RemoveSubtree(old(tree), p)
    {
      RemoveSubtreeWellFormed(tree, p);
      tree := RemoveSubtree(tree, p);
    }

    /** `os.remove(p)`. */
    method Remove(p: Path) returns (r: Result<()>)
      requires Valid()
      modifies this
      ensures Valid()
      ensures Applied(RemoveSpec(old(tree), p), old(tree), r, tree)
    {
      match RemoveSpec(tree, p)
      case Err(e) =>
        r := Err(e);
      case Ok(t) =>
        RemoveWellFormed(tree, p);
        tree, r := t, Ok(());
    }

    /** `os.makedirs(p, exist_ok=True)`. */
    method MakeDirs(p: Path) returns (r: Result<()>)
      requires Valid()
      modifies this
      ensures Valid()
      ensures Applied(MakeDirsSpec(old(tree), p), old(tree), r, tree)
    {
      match MakeDirsSpec(tree, p)
      case Err(e) =>
        r := Err(e);
      case Ok(t) =>
        MakeDirsWellFormed(tree, p);
        tree, r := t, Ok(());
    }

    /** `open(p, 'wb')` followed by `write(data)`. */
    method Write(p: Path, data: Bytes) returns (r: Result<()>)
      requires Valid()
      modifies this
      ensures Valid()
      ensures Applied(WriteSpec(old(tree), p, data), old(tree), r, tree)
    {
      match WriteSpec(tree, p, data)
      case Err(e) =>
        r := Err(e);
      case Ok(t) =>
        WriteWellFormed(tree, p, data);
        tree, r := t, Ok(());
    }
  }
}
