/**
 * POSIX path text as Python's `os.path` treats it.  A path string is a byte
 * string; once resolved against the working directory it becomes a `Path`,
 * the list of its components below the root (`[]` is the root itself).
 * Resolution is lexical, as `os.path.abspath` does it.
 */
module Paths {
  import opened Bytes

  const SLASH: byte := 47
  const BACKSLASH: byte := 92
  const DOT: byte := 46
  const DIGIT_ZERO: byte := 48

  /** A resolved absolute path: its components below the root. */
  type Path = seq<Bytes>

  /** A component a normalised path can hold. */
  predicate ValidName(c: Bytes)
  {
    c != [] && c != [DOT] && c != [DOT, DOT] && SLASH !in c
  }

  predicate ValidPath(p: Path)
  {
    forall k :: 0 <= k < |p| ==> ValidName(p[k])
  }

  /** `p` is `q` or one of its ancestors. */
  predicate IsPrefix(p: Path, q: Path)
  {
    |p| <= |q| && q[..|p|] == p
  }

  predicate IsAbsolute(t: Bytes)
  {
    |t| > 0 && t[0] == SLASH
  }

  /** `os.path.join(a, b)` for two arguments (posixpath). */
  function JoinPath(a: Bytes, b: Bytes): (r: Bytes)
    ensures IsAbsolute(b) ==> r == b
    ensures !IsAbsolute(b) ==> |a| + |b| <= |r| <= |a| + 1 + |b| && StartsWith(r, a) && r[|r| - |b|..] == b
  {
    if IsAbsolute(b) then b
    else if a == [] || a[|a| - 1] == SLASH then a + b
    else a + [SLASH] + b
  }

  /** One component of normalisation: skip `` and `.`, climb on `..`. */
  function Step(base: Path, c: Bytes): Path
  {
    if c == [] || c == [DOT] then base
    else if c == [DOT, DOT] then (if base == [] then [] else base[..|base| - 1])
    else base + [c]
  }

  /** Normalisation of a list of components, left to right, from `base`. */
  function Walk(base: Path, comps: seq<Bytes>): (r: Path)
    ensures ValidPath(base) && (forall k :: 0 <= k < |comps| ==> SLASH !in comps[k]) ==> ValidPath(r)
  {
    if comps == [] then base
    else Step(Walk(base, comps[..|comps| - 1]), comps[|comps| - 1])
  }

  /** `os.path.abspath(t)` with working directory `cwd`. */
  function Abspath(cwd: Path, t: Bytes): (p: Path)
    ensures ValidPath(cwd) ==> ValidPath(p)
  {
    SplitSegmentsFree(t, SLASH);
    Walk(if IsAbsolute(t) then [] else cwd, Split(t, SLASH))
  }

  /** Normalising two lists in a row is normalising their concatenation. */
  lemma {:induction false} WalkAppend(base: Path, xs: seq<Bytes>, ys: seq<Bytes>)
    ensures Walk(base, xs + ys) == Walk(Walk(base, xs), ys)
  {
    if ys == [] {
      assert xs + ys == xs;
    } else {
      assert (xs + ys)[..|xs + ys| - 1] == xs + ys[..|ys| - 1];
      WalkAppend(base, xs, ys[..|ys| - 1]);
    }
  }

  /**
   * Resolving `os.path.join(a, b)` is resolving `b` from where `a` leads:
   * the destination of a joined name depends on the directory only
   * through its resolved path.
   */
  lemma JoinThenResolve(cwd: Path, a: Bytes, b: Bytes)
    ensures Abspath(cwd, JoinPath(a, b)) == Abspath(Abspath(cwd, a), b)
  {
    if IsAbsolute(b) {
    } else if a == [] {
      assert Split(a, SLASH) == [[]];
      assert Walk(cwd, [[]]) == Step(Walk(cwd, []), []) == cwd;
      assert JoinPath(a, b) == b;
    } else {
      var base := if IsAbsolute(a) then [] else cwd;
      if a[|a| - 1] == SLASH {
        var a' := a[..|a| - 1];
        assert a == a' + [SLASH] + [];
        SplitAround(a', SLASH, []);
        assert JoinPath(a, b) == a' + [SLASH] + b;
        SplitAround(a', SLASH, b);
        WalkAppend(base, Split(a', SLASH), [[]]);
        WalkAppend(base, Split(a', SLASH), Split(b, SLASH));
      } else {
        SplitAround(a, SLASH, b);
        WalkAppend(base, Split(a, SLASH), Split(b, SLASH));
      }
      assert IsAbsolute(JoinPath(a, b)) == IsAbsolute(a);
    }
  }

  /** Joining a plain component to a directory adds exactly that component. */
  lemma JoinName(cwd: Path, dir: Bytes, name: Bytes)
    requires ValidName(name)
    ensures Abspath(cwd, JoinPath(dir, name)) == Abspath(cwd, dir) + [name]
  {
    JoinThenResolve(cwd, dir, name);
    SplitFree(name, SLASH);
    assert Walk(Abspath(cwd, dir), [name]) == Step(Walk(Abspath(cwd, dir), []), name);
  }

  /** Normalisation seen from the first component on. */
  lemma WalkFirst(base: Path, comps: seq<Bytes>)
    requires comps != []
    ensures Walk(base, comps) == Walk(Step(base, comps[0]), comps[1..])
  {
    WalkAppend(base, [comps[0]], comps[1..]);
    assert [comps[0]] + comps[1..] == comps;
    assert Walk(base, [comps[0]]) == Step(Walk(base, []), comps[0]);
  }

  /** No component of the text is `..`. */
  predicate ClimbFree(t: Bytes)
  {
    forall k :: 0 <= k < |Split(t, SLASH)| ==> Split(t, SLASH)[k] != [DOT, DOT]
  }

  /**
   * The text names its target directly: it never climbs, and its last
   * component is a plain name, so it neither ends in `/` nor in `.`.
   */
  predicate DirectName(t: Bytes)
  {
    ClimbFree(t) && ValidName(Split(t, SLASH)[|Split(t, SLASH)| - 1])
  }

  /** Dropping a trailing separator keeps a text free of `..`. */
  lemma ClimbFreeTrim(d: Bytes)
    requires ClimbFree(d + [SLASH])
    ensures ClimbFree(d)
  {
    assert d + [SLASH] == d + [SLASH] + [];
    SplitAround(d, SLASH, []);
    forall k | 0 <= k < |Split(d, SLASH)| ensures Split(d, SLASH)[k] != [DOT, DOT] {
      assert Split(d + [SLASH], SLASH)[k] == Split(d, SLASH)[k];
    }
  }

  /** A direct name after a separator and a text free of `..` is direct. */
  lemma JoinAround(a: Bytes, b: Bytes)
    requires ClimbFree(a) && DirectName(b)
    ensures DirectName(a + [SLASH] + b)
  {
    SplitAround(a, SLASH, b);
    var sa, sb := Split(a, SLASH), Split(b, SLASH);
    forall k | 0 <= k < |sa + sb| ensures (sa + sb)[k] != [DOT, DOT] {
      if k < |sa| {
        assert (sa + sb)[k] == sa[k];
      } else {
        assert (sa + sb)[k] == sb[k - |sa|];
      }
    }
    assert (sa + sb)[|sa + sb| - 1] == sb[|sb| - 1];
  }

  /** A direct name joined to a directory that never climbs is still direct. */
  lemma JoinDirect(dir: Bytes, name: Bytes)
    requires ClimbFree(dir) && DirectName(name)
    ensures DirectName(JoinPath(dir, name))
  {
    if IsAbsolute(name) {
    } else if dir == [] {
      assert JoinPath(dir, name) == name;
    } else if dir[|dir| - 1] == SLASH {
      var d := dir[..|dir| - 1];
      assert dir == d + [SLASH];
      ClimbFreeTrim(d);
      assert JoinPath(dir, name) == d + [SLASH] + name;
      JoinAround(d, name);
    } else {
      JoinAround(dir, name);
    }
  }

  /** A relative name that never climbs resolves below its base. */
  lemma {:induction false} WalkStaysBelow(base: Path, comps: seq<Bytes>)
    requires forall k :: 0 <= k < |comps| ==> comps[k] != [DOT, DOT]
    ensures IsPrefix(base, Walk(base, comps))
  {
    if comps != [] {
      WalkStaysBelow(base, comps[..|comps| - 1]);
    }
  }

  /**
   * `os.path.join(root, name)` stays inside `root` when `name` is relative
   * and has no `..` component; nothing else keeps an archive name inside
   * the destination.
   */
  lemma JoinStaysBelow(cwd: Path, root: Bytes, name: Bytes)
    requires !IsAbsolute(name) && ClimbFree(name)
    ensures IsPrefix(Abspath(cwd, root), Abspath(cwd, JoinPath(root, name)))
  {
    JoinThenResolve(cwd, root, name);
    WalkStaysBelow(Abspath(cwd, root), Split(name, SLASH));
  }

  /** `str(n)` as bytes: the decimal digits of `n`, no leading zero. */
  function DecimalText(n: nat): (r: Bytes)
    ensures 1 <= |r| && (|r| == 1 <==> n < 10)
    ensures forall k :: 0 <= k < |r| ==> DIGIT_ZERO <= r[k] <= DIGIT_ZERO + 9
  {
    if n < 10 then [DIGIT_ZERO + n as byte]
    else DecimalText(n / 10) + [DIGIT_ZERO + (n % 10) as byte]
  }

  /** Distinct numbers have distinct decimal texts. */
  lemma {:induction false} DecimalTextInjective(n: nat, m: nat)
    requires DecimalText(n) == DecimalText(m)
    ensures n == m
  {
    if n >= 10 {
      var s := DecimalText(n);
      assert m >= 10;
      assert s[..|s| - 1] == DecimalText(n / 10) == DecimalText(m / 10);
      DecimalTextInjective(n / 10, m / 10);
      assert n % 10 == m % 10 by {
        assert s[|s| - 1] == DIGIT_ZERO + (n % 10) as byte == DIGIT_ZERO + (m % 10) as byte;
      }
    }
  }

  /**
   * The synthetic name `os.path.join(source, str(i))` resolves below
   * `destination` to the archive name's path followed by one component,
   * the decimal index.
   */
  lemma SyntheticPath(cwd: Path, destination: Bytes, source: Bytes, i: nat)
    ensures Abspath(cwd, JoinPath(destination, JoinPath(source, DecimalText(i))))
         == Abspath(cwd, JoinPath(destination, source)) + [DecimalText(i)]
  {
    var d := DecimalText(i);
    JoinThenResolve(cwd, destination, JoinPath(source, d));
    JoinName(Abspath(cwd, destination), source, d);
    JoinThenResolve(cwd, destination, source);
  }

  /** Distinct entry indices never share a synthetic destination. */
  lemma SyntheticPathsDistinct(cwd: Path, destination: Bytes, source: Bytes, i: nat, j: nat)
    requires i != j
    ensures Abspath(cwd, JoinPath(destination, JoinPath(source, DecimalText(i))))
         != Abspath(cwd, JoinPath(destination, JoinPath(source, DecimalText(j))))
  {
    SyntheticPath(cwd, destination, source, i);
    SyntheticPath(cwd, destination, source, j);
    var b := Abspath(cwd, JoinPath(destination, source));
    if b + [DecimalText(i)] == b + [DecimalText(j)] {
      assert (b + [DecimalText(i)])[|b|] == (b + [DecimalText(j)])[|b|];
      DecimalTextInjective(i, j);
    }
  }
}
