/**
 * What every format handler shares: the four-byte signature probe at the
 * handler's offset, and the writers that put decoded data on disk under
 * one existence/overwrite policy.
 */
module FormatHandler {
  import opened Bytes
  import opened Paths
  import opened Results
  import opened FileSystem
  import opened Streams

  /**
   * The command-line options a decoder consults: the archive's file name
   * with its directory stripped, the destination directory as given, and
   * whether existing outputs may be replaced.
   */
  datatype Args = Args(sourceName: Bytes, destination: Bytes, force: bool)

  /** What a decoding pass returns, and the filesystem it leaves behind. */
  datatype Run<+T> = Run(out: Result<T>, tree: Tree)

  /**
   * `is_compatible`: the handler's signature test applied to the four bytes
   * at its offset (fewer when the file is shorter).
   */
  method IsCompatible(file: ArchiveFile, offset: nat, checkSignature: Bytes -> bool) returns (ok: bool)
    modifies file
    ensures ok == checkSignature(ReadAt(file.content, offset, 4))
  {
    file.Seek(offset);
    var buf := file.Read(4);
    ok := checkSignature(buf);
  }

  // ---------------------------------------------------------------------
  // The writers' policy as a function of the filesystem
  // ---------------------------------------------------------------------

  /** `os.makedirs(dirname(dest), exist_ok=True)` and then writing `dest`. */
  function Place(t: Tree, dest: Path, data: Bytes): Result<Tree>
    requires dest != []
  {
    match MakeDirsSpec(t, Parent(dest))
    case Err(e) => Err(e)
    case Ok(t1) => WriteSpec(t1, dest, data)
  }

  /**
   * `save_binary(data, dest, force)` once `dest` is resolved: a directory
   * in the way is removed only when forced, an existing file is replaced
   * only when forced, and the parents are created before the write.  The
   * root directory can never be replaced.
   */
  function SaveSpec(t: Tree, data: Bytes, dest: Path, force: bool): Result<Tree>
  {
    if dest == [] then Err(IsADirectory(dest))
    else if dest in t && t[dest].Dir? then
      if force then Place(RemoveSubtree(t, dest), dest, data) else Err(IsADirectory(dest))
    else if dest in t && !force then Err(FileExists(dest))
    else Place(t, dest, data)
  }

  /**
   * Saving over a file that has just been removed puts the new data in its
   * place: its parents are all still directories, so nothing else changes.
   */
  lemma SaveOverRemovedFile(t: Tree, data: Bytes, dest: Path, force: bool)
    requires WellFormed(t) && dest in t && t[dest].File?
    ensures SaveSpec(t - {dest}, data, dest, force) == Ok(t[dest := File(data)])
  {
    var t1 := t - {dest};
    assert dest != [];
    NothingAboveEntry(t, dest);
    var up := Parent(dest);
    assert NoFileOnWay(t1, up);
    MakeDirsOutcome(t1, up);
    PlaceOutcome(t1, dest, data);
    forall q | IsPrefix(q, up) ensures q in t1 {
      if q != [] {
        assert q == dest[..|q|];
        AncestorsAreDirs(t, dest, |q|);
      }
    }
    assert MakeDirsSpec(t1, up).value == t1;
    assert t1[dest := File(data)] == t[dest := File(data)];
  }

  /** Once makedirs has run, the write cannot fail unless `dest` is a directory. */
  lemma PlaceOutcome(t: Tree, dest: Path, data: Bytes)
    requires dest != [] && !(dest in t && t[dest].Dir?)
    ensures Place(t, dest, data).Ok? <==> NoFileOnWay(t, Parent(dest))
    ensures Place(t, dest, data).Ok? ==>
      Place(t, dest, data).value == MakeDirsSpec(t, Parent(dest)).value[dest := File(data)]
  {
    var up := Parent(dest);
    MakeDirsOutcome(t, up);
    if MakeDirsSpec(t, up).Ok? {
      var t1 := MakeDirsSpec(t, up).value;
      assert !IsPrefix(dest, up);
      assert IsPrefix(up, up);
      assert up in t ==> up[..|up|] in t;
    }
  }

  /** Above an existing entry of a well-formed tree there are only directories. */
  lemma NothingAboveEntry(t: Tree, q: Path)
    requires WellFormed(t) && q in t && q != []
    ensures NoFileOnWay(t, Parent(q))
  {
    forall k | 0 <= k <= |Parent(q)| ensures Parent(q)[..k] in t && t[Parent(q)[..k]] == Dir {
      AncestorsAreDirs(t, q, k);
      assert Parent(q)[..k] == q[..k];
    }
  }

  /**
   * Save succeeds exactly when `dest` is not the root, is absent or `force`
   * is set, and no existing ancestor of `dest` is a regular file.  In
   * particular, without `force` an existing file or directory always makes
   * it fail.
   */
  lemma SaveSucceedsIff(t: Tree, data: Bytes, dest: Path, force: bool)
    requires WellFormed(t)
    ensures SaveSpec(t, data, dest, force).Ok?
        <==> dest != [] && (force || dest !in t) && NoFileOnWay(t, Parent(dest))
  {
    if dest != [] && dest in t && t[dest].Dir? {
      NothingAboveEntry(t, dest);
      var t1 := RemoveSubtree(t, dest);
      assert NoFileOnWay(t1, Parent(dest));
      PlaceOutcome(t1, dest, data);
    } else if dest != [] {
      PlaceOutcome(t, dest, data);
    }
  }

  /**
   * On success `dest` holds exactly `data`, all its ancestors are
   * directories, and nothing else changed except created ancestors and the
   * removed subtree below `dest`.
   */
  lemma SaveEffect(t: Tree, data: Bytes, dest: Path, force: bool)
    requires WellFormed(t) && SaveSpec(t, data, dest, force).Ok?
    ensures var t' := SaveSpec(t, data, dest, force).value;
      && dest in t' && t'[dest] == File(data)
      && (forall k :: 0 <= k < |dest| ==> dest[..k] in t' && t'[dest[..k]] == Dir)
      && (forall q :: q in t && !IsPrefix(dest, q) ==> q in t' && t'[q] == t[q])
      && (forall q :: q in t' && q !in t ==> IsPrefix(q, dest))
      && (forall q :: IsPrefix(dest, q) && q != dest ==> q !in t')
  {
    var up := Parent(dest);
    var t1 := if dest in t && t[dest].Dir? then RemoveSubtree(t, dest) else t;
    assert SaveSpec(t, data, dest, force) == Place(t1, dest, data);
    PlaceOutcome(t1, dest, data);
    MakeDirsOutcome(t1, up);
    var t2 := MakeDirsSpec(t1, up).value;
    var t' := t2[dest := File(data)];
    forall k | 0 <= k < |dest| ensures dest[..k] in t' && t'[dest[..k]] == Dir {
      assert up[..k] == dest[..k];
      assert IsPrefix(dest[..k], up);
    }
    forall q | q in t' && q !in t ensures IsPrefix(q, dest) {
      if q != dest {
        assert IsPrefix(q, up);
        assert dest[..|q|] == up[..|q|];
      }
    }
    forall q | IsPrefix(dest, q) && q != dest ensures q !in t' {
      if q in t2 {
        assert !IsPrefix(q, up);
        assert q in t1;
        if !(dest in t && t[dest].Dir?) {
          AncestorsAreDirs(t, q, |dest|);
        }
      }
    }
  }

  /** A successful save keeps the tree well formed. */
  lemma SavePreservesWellFormed(t: Tree, data: Bytes, dest: Path, force: bool)
    requires WellFormed(t) && SaveSpec(t, data, dest, force).Ok?
    ensures WellFormed(SaveSpec(t, data, dest, force).value)
  {
    var t1 := if dest in t && t[dest].Dir? then RemoveSubtree(t, dest) else t;
    if dest in t && t[dest].Dir? {
      RemoveSubtreeWellFormed(t, dest);
    }
    MakeDirsWellFormed(t1, Parent(dest));
    WriteWellFormed(MakeDirsSpec(t1, Parent(dest)).value, dest, data);
  }

  /** Without `force` a save only adds: every existing entry survives unchanged. */
  lemma SaveWithoutForceExtends(t: Tree, data: Bytes, dest: Path)
    requires SaveSpec(t, data, dest, false).Ok?
    ensures Extends(t, SaveSpec(t, data, dest, false).value)
    ensures dest in SaveSpec(t, data, dest, false).value
  {
    MakeDirsOutcome(t, Parent(dest));
  }

  /** With `force`, a directory at `dest` is replaced, subtree and all, by the file. */
  lemma SaveReplacesDirectory(t: Tree, data: Bytes, dest: Path)
    requires WellFormed(t) && dest != [] && dest in t && t[dest].Dir?
    ensures SaveSpec(t, data, dest, true).Ok?
    ensures var t' := SaveSpec(t, data, dest, true).value;
      t'[dest] == File(data) && forall q :: IsPrefix(dest, q) && q != dest ==> q !in t'
  {
    NothingAboveEntry(t, dest);
    var t1 := RemoveSubtree(t, dest);
    assert NoFileOnWay(t1, Parent(dest));
    PlaceOutcome(t1, dest, data);
    SaveEffect(t, data, dest, true);
  }

  // ---------------------------------------------------------------------
  // The writers
  // ---------------------------------------------------------------------

  /** `save_binary(data, dest, force)`. */
  method SaveBinary(disk: Disk, data: Bytes, dest: Bytes, force: bool) returns (r: Result<()>)
    requires disk.Valid()
    modifies disk
    ensures disk.Valid()
    ensures Applied(SaveSpec(old(disk.tree), data, disk.Resolve(dest), force), old(disk.tree), r, disk.tree)
  {
    var p := disk.Resolve(dest);
    ghost var t0 := disk.tree;
    if disk.IsDir(p) {
      if force && p != [] {
        NothingAboveEntry(t0, p);
        disk.RemoveTree(p);
      } else {
        return Err(IsADirectory(p));
      }
    } else if disk.IsFile(p) && !force {
      return Err(FileExists(p));
    }
    ghost var t1 := disk.tree;
    PlaceOutcome(t1, p, data);
    MakeDirsOutcome(t1, Parent(p));
    var made := disk.MakeDirs(Parent(p));
    if made.Err? {
      return made;
    }
    r := disk.Write(p, data);
  }

  /**
   * `save_json(value, dest, force)`: the same policy as `save_binary`; the
   * bytes written are `serialise(value)`, standing for
   * `json.dumps(value, indent='\t')`.
   */
  method SaveJson<V>(disk: Disk, value: V, serialise: V -> Bytes, dest: Bytes, force: bool)
    returns (r: Result<()>)
    requires disk.Valid()
    modifies disk
    ensures disk.Valid()
    ensures Applied(SaveSpec(old(disk.tree), serialise(value), disk.Resolve(dest), force),
                    old(disk.tree), r, disk.tree)
  {
    r := SaveBinary(disk, serialise(value), dest, force);
  }
}
