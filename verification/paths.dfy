/**
 * Paths as `java.io.File` builds them on a Unix host: a path string is cut at
 * '/' into names (repeated and trailing separators vanish), a child is
 * appended to its parent, and `getAbsolutePath` joins the names back with
 * '/'. A `File` keeps "." and ".." as written; the host resolves them only
 * when it walks the path, name by name (`Canon` gives the entry a walk ends
 * at; `FileSystem.Reachable` says whether the walk gets there).
 */
module Paths {

  type Name = string

  /** An absolute path, as the names of its components from the root. */
  type Path = seq<Name>

  predicate IsComponent(n: Name) {
    n != [] && '/' !in n
  }

  predicate WellFormed(p: Path) {
    forall i :: 0 <= i < |p| ==> IsComponent(p[i])
  }

  predicate IsDot(n: Name) {
    n == "." || n == ".."
  }

  /** A path the host can store an entry under: no "." or ".." left in it. */
  predicate Canonical(p: Path) {
    WellFormed(p) && forall i :: 0 <= i < |p| ==> !IsDot(p[i])
  }

  predicate IsAbsolute(s: string) {
    s != [] && s[0] == '/'
  }

  /** Length of the name at the start of `s`, up to the next '/'. */
  function SegmentLength(s: string): (k: nat)
    ensures k <= |s| && '/' !in s[..k]
    ensures k == |s| || s[k] == '/'
  {
    if s == [] || s[0] == '/' then 0 else 1 + SegmentLength(s[1..])
  }

  /** The names of a path string, as `File` normalises it. */
  function Segments(s: string): (p: Path)
    ensures WellFormed(p)
    decreases |s|
  {
    if s == [] then []
    else if s[0] == '/' then Segments(s[1..])
    else
      var k := SegmentLength(s);
      [s[..k]] + Segments(s[k..])
  }

  /** `new File(base, s)`: the names of `s` appended to `base`, whether or not
      `s` itself starts with '/'. */
  function Resolve(base: Path, s: string): (p: Path)
    ensures WellFormed(base) ==> WellFormed(p)
    ensures |base| <= |p| && p[..|base|] == base && p[|base|..] == Segments(s)
  {
    base + Segments(s)
  }

  function Joined(p: Path): string {
    if p == [] then "" else "/" + p[0] + Joined(p[1..])
  }

  /** `getAbsolutePath` of an absolute path: the root is "/". */
  function Render(p: Path): (s: string)
    ensures IsAbsolute(s)
  {
    if p == [] then "/" else Joined(p)
  }

  /** The entry the host's walk of a path ends at, when every step of it
      succeeds: "." stays where it is, ".." goes one level up (and stays at
      the root), any other name goes one level down. Whether every step
      succeeds depends on the filesystem (`FileSystem.Reachable`). */
  function Canon(p: Path): (c: Path)
    ensures WellFormed(p) ==> Canonical(c)
    ensures |c| <= |p|
  {
    if p == [] then []
    else
      var c := Canon(p[..|p| - 1]);
      var n := p[|p| - 1];
      if n == "." then c
      else if n == ".." then (if c == [] then [] else c[..|c| - 1])
      else c + [n]
  }

  function Parent(c: Path): Path
    requires c != []
  {
    c[..|c| - 1]
  }

  /** `File.getName` of a path, as a path of zero names (the root) or one. */
  function BaseName(p: Path): (b: Path)
    ensures |b| <= 1
    ensures p != [] ==> b == [p[|p| - 1]]
  {
    if p == [] then [] else [p[|p| - 1]]
  }

  /** The path's last name is "." or "..": the host refuses to create,
      remove or rename such a path. */
  predicate Dotted(p: Path) {
    p != [] && IsDot(p[|p| - 1])
  }

  /** `b` lies strictly below `a`. */
  predicate Below(a: Path, b: Path) {
    |a| < |b| && b[..|a|] == a
  }

  // ---------------------------------------------------------------------
  // Properties

  lemma {:induction false} SegmentLengthOfName(n: Name, rest: string)
    requires '/' !in n
    requires rest == [] || rest[0] == '/'
    ensures SegmentLength(n + rest) == |n|
    decreases |n|
  {
    if n != [] {
      assert (n + rest)[1..] == n[1..] + rest;
      SegmentLengthOfName(n[1..], rest);
    }
  }

  lemma {:induction false} SegmentsOfJoined(p: Path)
    requires WellFormed(p)
    ensures Segments(Joined(p)) == p
    ensures Joined(p) == [] || Joined(p)[0] == '/'
  {
    if p != [] {
      var n, rest := p[0], Joined(p[1..]);
      SegmentsOfJoined(p[1..]);
      var s := "/" + n + rest;
      assert Joined(p) == s;
      assert s[1..] == n + rest;
      SegmentLengthOfName(n, rest);
      assert (n + rest)[..|n|] == n;
      assert (n + rest)[|n|..] == rest;
    }
  }

  /** Reading back the path `getAbsolutePath` printed gives the same names:
      `pwd` followed by `cd` of its output names the same path again. */
  lemma SegmentsOfRender(p: Path)
    requires WellFormed(p)
    ensures Segments(Render(p)) == p
  {
    if p == [] {
      assert Render(p)[1..] == [];
    } else {
      SegmentsOfJoined(p);
    }
  }

  /** The host's lookup leaves a path without "." and ".." as it is. */
  lemma {:induction false} CanonOfCanonical(p: Path)
    requires Canonical(p)
    ensures Canon(p) == p
  {
    if p != [] {
      CanonOfCanonical(p[..|p| - 1]);
      assert p == p[..|p| - 1] + [p[|p| - 1]];
    }
  }

  /** Appending "." to a path does not move it. */
  lemma CanonOfDot(p: Path)
    ensures Canon(p + ["."]) == Canon(p)
  {
    assert (p + ["."])[..|p|] == p;
  }
}
