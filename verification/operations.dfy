/**
 * What each command of the interpreter does to the session's directory and
 * to the host filesystem, as functions of the state before the command.
 * The methods of `Interpreter.Shell` are proved to follow these.
 */
module Operations {
  import opened Paths
  import opened FileSystem

  // ---------------------------------------------------------------------
  // cd

  /** The directory `cd path` asks for: an absolute path as given, a
      relative one under the current directory. */
  function CdTarget(cur: Path, path: string): (t: Path)
    ensures WellFormed(cur) ==> WellFormed(t)
    ensures IsAbsolute(path) ==> t == Segments(path)
    ensures !IsAbsolute(path) ==> |cur| <= |t| && t[..|cur|] == cur && t[|cur|..] == Segments(path)
  {
    if IsAbsolute(path) then Segments(path) else Resolve(cur, path)
  }

  /** The current directory after `cd path`: the target if it is an existing
      directory, otherwise the current directory unchanged. */
  function ChangeDirectory(fs: Fs, cur: Path, path: string): (next: Path)
    ensures next == cur || next == CdTarget(cur, path)
    ensures next == CdTarget(cur, path) <==> IsDir(fs, CdTarget(cur, path)) || CdTarget(cur, path) == cur
    ensures WellFormed(cur) ==> WellFormed(next)
  {
    var target := CdTarget(cur, path);
    if IsDir(fs, target) then target else cur
  }

  /** `cd` without an argument is `cd .`: the shell stays in the same
      directory (the path may gain a "." component, as Java keeps it). */
  lemma CdDotStays(fs: Fs, cur: Path)
    ensures Canon(ChangeDirectory(fs, cur, ".")) == Canon(cur)
  {
    SegmentsOfName(".");
    CanonOfDot(cur);
  }

  /** `cd` to the path `pwd` printed for an existing directory goes exactly
      there, from wherever the shell is. */
  lemma CdToPrintedPath(fs: Fs, cur: Path, p: Path)
    requires WellFormed(p) && IsDir(fs, p)
    ensures ChangeDirectory(fs, cur, Render(p)) == p
  {
    SegmentsOfRender(p);
  }

  /** `cd nosuch/..` does not move the shell: the host cannot walk through
      the missing `nosuch`, so the target is no directory, although its
      "." and ".." cancel out on paper. */
  lemma CdThroughMissing(fs: Fs, cur: Path, n: string)
    requires Canonical(cur) && IsComponent(n) && !IsDot(n) && cur + [n] !in fs
    ensures !IsDir(fs, CdTarget(cur, n + "/..")) && Canon(CdTarget(cur, n + "/..")) == cur
    ensures ChangeDirectory(fs, cur, n + "/..") == cur
  {
    var s := n + "/..";
    SegmentLengthOfName(n, "/..");
    assert s[..|n|] == n && s[|n|..] == "/..";
    assert "/.."[1..] == "..";
    SegmentsOfName("..");
    assert Segments(s) == [n, ".."];
    var t := cur + [n, ".."];
    assert !IsAbsolute(s) && CdTarget(cur, s) == t;
    assert Canonical(cur + [n]);
    CanonOfCanonical(cur + [n]);
    assert t[..|cur| + 1] == cur + [n] && t[..|t| - 1] == cur + [n];
    assert !DirAt(fs, Canon(t[..|cur| + 1]));
  }

  // ---------------------------------------------------------------------
  // mkdir and touch: one entry per name, each name on its own

  /** The filesystem after `mkdir` (kind `Directory`) or `touch` (kind
      `File`) of `names`, processed left to right; no entry is lost. */
  function CreateEach(fs: Fs, cur: Path, names: seq<string>, kind: Kind): (r: Fs)
    ensures fs.Keys <= r.Keys
    decreases |names|
  {
    if names == [] then fs
    else
      var before := CreateEach(fs, cur, names[..|names| - 1], kind);
      Create(before, Resolve(cur, names[|names| - 1]), kind)
  }

  /** `mkdir` and `touch` only add: every entry stays as it was, and every
      new entry has the kind asked for and is the path of one of the names. */
  lemma {:induction false} CreateEachOnlyAdds(fs: Fs, cur: Path, names: seq<string>, kind: Kind)
    ensures var r := CreateEach(fs, cur, names, kind);
      && (forall k :: k in fs ==> k in r && r[k] == fs[k])
      && (forall k :: k in r && k !in fs ==>
            r[k] == kind && exists i :: 0 <= i < |names| && k == Canon(Resolve(cur, names[i])))
    decreases |names|
  {
    if names != [] {
      var init := names[..|names| - 1];
      CreateEachOnlyAdds(fs, cur, init, kind);
      var before := CreateEach(fs, cur, init, kind);
      var r := CreateEach(fs, cur, names, kind);
      forall k | k in r && k !in fs
        ensures r[k] == kind && exists i :: 0 <= i < |names| && k == Canon(Resolve(cur, names[i]))
      {
        if k in before {
          var i :| 0 <= i < |init| && k == Canon(Resolve(cur, init[i]));
          assert init[i] == names[i];
        } else {
          assert k == Canon(Resolve(cur, names[|names| - 1]));
        }
      }
    }
  }

  /** The names reported as already existing, in order: those whose entry
      exists when their turn comes. */
  function Clashes(fs: Fs, cur: Path, names: seq<string>, kind: Kind): (c: seq<string>)
    ensures |c| <= |names|
    ensures forall n :: n in c ==> n in names
    decreases |names|
  {
    if names == [] then []
    else
      var init := names[..|names| - 1];
      var n := names[|names| - 1];
      Clashes(fs, cur, init, kind) + (if Exists(CreateEach(fs, cur, init, kind), Resolve(cur, n)) then [n] else [])
  }

  /** Reporting goes name by name: one more name adds itself to the report
      exactly when its entry is already there after the names before it. */
  lemma ClashesAppend(fs: Fs, cur: Path, names: seq<string>, n: string, kind: Kind)
    ensures Clashes(fs, cur, names + [n], kind)
         == Clashes(fs, cur, names, kind)
            + (if Exists(CreateEach(fs, cur, names, kind), Resolve(cur, n)) then [n] else [])
  {
    var s := names + [n];
    assert s[..|s| - 1] == names;
    assert s[|s| - 1] == n;
  }

  /** Every name that exists beforehand is reported, and every reported
      name exists afterwards (`ClashesAtTurn` says which names exactly). */
  lemma {:induction false} ClashesExactly(fs: Fs, cur: Path, names: seq<string>, kind: Kind)
    ensures forall n :: n in names && Exists(fs, Resolve(cur, n)) ==> n in Clashes(fs, cur, names, kind)
    ensures forall n :: n in Clashes(fs, cur, names, kind) ==> Exists(CreateEach(fs, cur, names, kind), Resolve(cur, n))
    decreases |names|
  {
    if names != [] {
      var init, last := names[..|names| - 1], names[|names| - 1];
      assert names == init + [last];
      ClashesExactly(fs, cur, init, kind);
      var before := CreateEach(fs, cur, init, kind);
      var after := CreateEach(fs, cur, names, kind);
      CreateEachStep(fs, cur, names, kind);
      forall n | n in names && Exists(fs, Resolve(cur, n))
        ensures n in Clashes(fs, cur, names, kind)
      {
        if n !in init {
          assert n == last;
          CreateEachOnlyAdds(fs, cur, init, kind);
          ReachableGrows(fs, before, Resolve(cur, n));
        }
      }
      forall n | n in Clashes(fs, cur, names, kind)
        ensures Exists(after, Resolve(cur, n))
      {
        assert Exists(before, Resolve(cur, n));
        ReachableGrows(before, after, Resolve(cur, n));
      }
    }
  }

  /** The entry for `names[i]` is already there at its turn, i.e. after
      the names before it were handled. */
  predicate ThereAtTurn(fs: Fs, cur: Path, names: seq<string>, kind: Kind, i: nat)
    requires i < |names|
  {
    Exists(CreateEach(fs, cur, names[..i], kind), Resolve(cur, names[i]))
  }

  /** A name is reported when its entry is already there at its turn: the
      second `a` of `mkdir a a` is reported even where the first one
      created it. */
  lemma ClashesAtTurn(fs: Fs, cur: Path, names: seq<string>, kind: Kind)
    ensures forall i :: 0 <= i < |names| && ThereAtTurn(fs, cur, names, kind, i)
              ==> names[i] in Clashes(fs, cur, names, kind)
  {
    forall i | 0 <= i < |names| && ThereAtTurn(fs, cur, names, kind, i)
      ensures names[i] in Clashes(fs, cur, names, kind)
    {
      ClashAtTurn(fs, cur, names, kind, i);
    }
  }

  lemma {:induction false} ClashAtTurn(fs: Fs, cur: Path, names: seq<string>, kind: Kind, i: nat)
    requires i < |names| && ThereAtTurn(fs, cur, names, kind, i)
    ensures names[i] in Clashes(fs, cur, names, kind)
    decreases |names|
  {
    var init, last := names[..|names| - 1], names[|names| - 1];
    var before := Clashes(fs, cur, init, kind);
    assert names == init + [last];
    ClashesAppend(fs, cur, init, last, kind);
    if i < |init| {
      assert init[..i] == names[..i] && init[i] == names[i];
      assert ThereAtTurn(fs, cur, init, kind, i);
      ClashAtTurn(fs, cur, init, kind, i);
    } else {
      assert names[..i] == init;
    }
  }

  /** Only such names are reported: each reported name is one of the names
      whose entry is already there at its turn. */
  lemma ClashesOnlyAtTurn(fs: Fs, cur: Path, names: seq<string>, kind: Kind)
    ensures forall n :: n in Clashes(fs, cur, names, kind) ==>
              exists i :: 0 <= i < |names| && names[i] == n && ThereAtTurn(fs, cur, names, kind, i)
  {
    forall n | n in Clashes(fs, cur, names, kind)
      ensures exists i :: 0 <= i < |names| && names[i] == n && ThereAtTurn(fs, cur, names, kind, i)
    {
      var i := ClashTurn(fs, cur, names, kind, n);
    }
  }

  lemma {:induction false} ClashTurn(fs: Fs, cur: Path, names: seq<string>, kind: Kind, n: string) returns (i: nat)
    requires n in Clashes(fs, cur, names, kind)
    ensures i < |names| && names[i] == n && ThereAtTurn(fs, cur, names, kind, i)
    decreases |names|
  {
    assert names != [];
    var init, last := names[..|names| - 1], names[|names| - 1];
    var before := Clashes(fs, cur, init, kind);
    assert names == init + [last];
    ClashesAppend(fs, cur, init, last, kind);
    if n in before {
      i := ClashTurn(fs, cur, init, kind, n);
      assert init[..i] == names[..i] && init[i] == names[i];
      assert ThereAtTurn(fs, cur, init, kind, i);
    } else {
      assert n == last && Exists(CreateEach(fs, cur, init, kind), Resolve(cur, last));
      i := |init|;
      assert names[..i] == init;
    }
  }

  /** The host allows an entry at `t` as far as its place is concerned: it
      can walk the path, which is not the root, has no "." or ".." at the
      end, and lies inside a directory. */
  predicate Placeable(fs: Fs, t: Path) {
    var c := Canon(t);
    Reachable(fs, t) && c != [] && !Dotted(t) && Parent(c) in fs && fs[Parent(c)] == Directory
  }

  /** Every name whose place is a directory ends up with an entry, whatever
      the other names do. */
  lemma {:induction false} CreateEachCreates(fs: Fs, cur: Path, names: seq<string>, kind: Kind, i: nat)
    requires i < |names| && Placeable(fs, Resolve(cur, names[i]))
    ensures Exists(CreateEach(fs, cur, names, kind), Resolve(cur, names[i]))
    decreases |names|
  {
    var init := names[..|names| - 1];
    var before := CreateEach(fs, cur, init, kind);
    CreateEachOnlyAdds(fs, cur, init, kind);
    if i < |names| - 1 {
      assert init[i] == names[i];
      CreateEachCreates(fs, cur, init, kind, i);
    }
  }

  /** `mkdir a b` does what `mkdir a` followed by `mkdir b` does (and the same
      for `touch`): each name is handled on its own. */
  lemma {:induction false} CreateEachAppend(fs: Fs, cur: Path, a: seq<string>, b: seq<string>, kind: Kind)
    ensures CreateEach(fs, cur, a + b, kind) == CreateEach(CreateEach(fs, cur, a, kind), cur, b, kind)
    decreases |b|
  {
    if b == [] {
      assert a + b == a;
    } else {
      var ab, init, last := a + b, b[..|b| - 1], b[|b| - 1];
      assert ab[..|ab| - 1] == a + init;
      assert ab[|ab| - 1] == last;
      var mid := CreateEach(fs, cur, a, kind);
      CreateEachAppend(fs, cur, a, init, kind);
      CreateEachStep(fs, cur, ab, kind);
      CreateEachStep(mid, cur, b, kind);
    }
  }

  lemma CreateEachStep(fs: Fs, cur: Path, names: seq<string>, kind: Kind)
    requires names != []
    ensures CreateEach(fs, cur, names, kind)
         == Create(CreateEach(fs, cur, names[..|names| - 1], kind), Resolve(cur, names[|names| - 1]), kind)
  {
  }

  /** The state after one more name of the loop. */
  lemma CreateEachSnoc(fs: Fs, cur: Path, names: seq<string>, kind: Kind, i: nat)
    requires i < |names|
    ensures CreateEach(fs, cur, names[..i + 1], kind)
         == Create(CreateEach(fs, cur, names[..i], kind), Resolve(cur, names[i]), kind)
    ensures Clashes(fs, cur, names[..i + 1], kind)
         == Clashes(fs, cur, names[..i], kind)
            + (if Exists(CreateEach(fs, cur, names[..i], kind), Resolve(cur, names[i])) then [names[i]] else [])
  {
    assert names[..i + 1][..i] == names[..i];
    assert names[..i + 1][i] == names[i];
  }

  lemma {:induction false} CreateEachKeepsTree(fs: Fs, cur: Path, names: seq<string>, kind: Kind)
    requires Tree(fs) && WellFormed(cur)
    ensures Tree(CreateEach(fs, cur, names, kind))
    decreases |names|
  {
    if names != [] {
      CreateEachKeepsTree(fs, cur, names[..|names| - 1], kind);
      CreateKeepsTree(CreateEach(fs, cur, names[..|names| - 1], kind), Resolve(cur, names[|names| - 1]), kind);
    }
  }

  // ---------------------------------------------------------------------
  // rmdir and rm

  /** The filesystem after `rmdir name`. */
  function RemoveDirectory(fs: Fs, cur: Path, name: string): (r: Fs)
    ensures r == fs || (IsDir(fs, Resolve(cur, name)) && Children(fs, Canon(Resolve(cur, name))) == {}
                        && r == fs - {Canon(Resolve(cur, name))})
    ensures !IsDir(fs, Resolve(cur, name)) || Children(fs, Canon(Resolve(cur, name))) != {} ==> r == fs
  {
    var t := Resolve(cur, name);
    if IsDir(fs, t) && Children(fs, Canon(t)) == {} then Delete(fs, t) else fs
  }

  /** "." inside a stored directory of a tree names that directory, yet
      `rmdir` cannot delete it through that path. */
  lemma DotOfStoredDirectory(fs: Fs, cur: Path)
    requires Tree(fs) && Canonical(cur) && DirAt(fs, cur)
    ensures Resolve(cur, ".") == cur + ["."]
    ensures IsDir(fs, cur + ["."]) && Canon(cur + ["."]) == cur
    ensures RemoveDirectory(fs, cur, ".") == fs
  {
    SegmentsOfName(".");
    CanonOfDot(cur);
    CanonOfCanonical(cur);
    StoredReachable(fs, cur, ".");
    assert Dotted(cur + ["."]);
  }

  /** The filesystem after `rm name`. */
  function RemoveFile(fs: Fs, cur: Path, name: string): (r: Fs)
    ensures r == fs || (IsFile(fs, Resolve(cur, name)) && r == fs - {Canon(Resolve(cur, name))})
    ensures !IsFile(fs, Resolve(cur, name)) ==> r == fs
  {
    var t := Resolve(cur, name);
    if IsFile(fs, t) then Delete(fs, t) else fs
  }

  /** `mkdir d` then `rmdir d`, for a `d` that is not there yet, gives back
      the filesystem as it was (when the host cannot create `d`, neither
      command changes anything). */
  lemma MkdirThenRmdir(fs: Fs, cur: Path, name: string)
    requires Tree(fs) && !Exists(fs, Resolve(cur, name))
    ensures RemoveDirectory(CreateEach(fs, cur, [name], Directory), cur, name) == fs
  {
    var t := Resolve(cur, name);
    assert [name][..0] == [];
    CreateEachStep(fs, cur, [name], Directory);
    var made := Create(fs, t, Directory);
    if CanCreate(fs, t) {
      CreateThenDelete(fs, t, Directory);
      assert IsDir(made, t) && Children(made, Canon(t)) == {};
    } else {
      assert made == fs && !IsDir(fs, t);
    }
  }

  /** `touch f` then `rm f`, for an `f` that is not there yet, gives back the
      filesystem as it was. */
  lemma TouchThenRm(fs: Fs, cur: Path, name: string)
    requires Tree(fs) && !Exists(fs, Resolve(cur, name))
    ensures RemoveFile(CreateEach(fs, cur, [name], File), cur, name) == fs
  {
    var t := Resolve(cur, name);
    assert [name][..0] == [];
    CreateEachStep(fs, cur, [name], File);
    var made := Create(fs, t, File);
    if CanCreate(fs, t) {
      CreateThenDelete(fs, t, File);
      assert IsFile(made, t);
    } else {
      assert made == fs && !IsFile(fs, t);
    }
  }

  lemma RemoveDirectoryKeepsTree(fs: Fs, cur: Path, name: string)
    requires Tree(fs)
    ensures Tree(RemoveDirectory(fs, cur, name))
  {
    DeleteKeepsTree(fs, Resolve(cur, name));
  }

  lemma RemoveFileKeepsTree(fs: Fs, cur: Path, name: string)
    requires Tree(fs)
    ensures Tree(RemoveFile(fs, cur, name))
  {
    DeleteKeepsTree(fs, Resolve(cur, name));
  }

  // ---------------------------------------------------------------------
  // mv

  /** Where `mv src dst` puts the source: inside `dst` under the source's own
      name when `dst` is an existing directory, at `dst` otherwise. */
  function MoveTarget(fs: Fs, cur: Path, src: string, dst: string): (t: Path)
    ensures IsDir(fs, Resolve(cur, dst)) ==> t == Resolve(cur, dst) + BaseName(Resolve(cur, src))
    ensures !IsDir(fs, Resolve(cur, dst)) ==> t == Resolve(cur, dst)
  {
    var d := Resolve(cur, dst);
    if IsDir(fs, d) then d + BaseName(Resolve(cur, src)) else d
  }

  /** `renameTo` returns true: the host said so and the rename is possible. */
  predicate Renamed(fs: Fs, cur: Path, src: string, dst: string, hostSays: bool) {
    hostSays && CanRename(fs, Resolve(cur, src), MoveTarget(fs, cur, src, dst))
  }

  /** The filesystem after `mv src dst`; `hostSays` is the host's verdict on
      the rename. */
  function Move(fs: Fs, cur: Path, src: string, dst: string, hostSays: bool): (r: Fs)
    ensures !Exists(fs, Resolve(cur, src)) ==> r == fs
    ensures !Renamed(fs, cur, src, dst, hostSays) ==> r == fs
  {
    var s := Resolve(cur, src);
    if Exists(fs, s) && Renamed(fs, cur, src, dst, hostSays) then Rename(fs, s, MoveTarget(fs, cur, src, dst)) else fs
  }

  /** A move the host carries out is the rename of the source to the target. */
  lemma MoveRenames(fs: Fs, cur: Path, src: string, dst: string, hostSays: bool)
    requires Exists(fs, Resolve(cur, src)) && Renamed(fs, cur, src, dst, hostSays)
    ensures Move(fs, cur, src, dst, hostSays) == Rename(fs, Resolve(cur, src), MoveTarget(fs, cur, src, dst))
  {
  }

  /** A successful move: the source path is gone, the target holds what the
      source held, and nothing outside the two subtrees changes. */
  lemma MoveMovesEntry(fs: Fs, cur: Path, src: string, dst: string, hostSays: bool)
    requires Renamed(fs, cur, src, dst, hostSays)
    requires Canon(Resolve(cur, src)) != Canon(MoveTarget(fs, cur, src, dst))
    ensures var r, sc, dc := Move(fs, cur, src, dst, hostSays), Canon(Resolve(cur, src)), Canon(MoveTarget(fs, cur, src, dst));
      && !Exists(r, Resolve(cur, src))
      && dc in r && r[dc] == fs[sc]
      && forall k :: !AtOrBelow(sc, k) && !AtOrBelow(dc, k) ==>
           (k in r <==> k in fs) && (k in r ==> r[k] == fs[k])
  {
    RelocateMoves(fs, Canon(Resolve(cur, src)), Canon(MoveTarget(fs, cur, src, dst)));
  }

  lemma MoveKeepsTree(fs: Fs, cur: Path, src: string, dst: string, hostSays: bool)
    requires Tree(fs) && WellFormed(cur)
    ensures Tree(Move(fs, cur, src, dst, hostSays))
  {
    RenameKeepsTree(fs, Resolve(cur, src), MoveTarget(fs, cur, src, dst));
  }

  /** `touch a` then `mv a b` in an existing directory, for two plain names
      that are not there yet: afterwards `b` is a file and `a` is gone. */
  lemma TouchThenMv(fs: Fs, cur: Path, a: string, b: string, hostSays: bool)
    requires Tree(fs) && Canonical(cur) && IsDir(fs, cur) && hostSays
    requires IsComponent(a) && !IsDot(a) && IsComponent(b) && !IsDot(b) && a != b
    requires !Exists(fs, cur + [a]) && !Exists(fs, cur + [b])
    ensures var r := Move(CreateEach(fs, cur, [a], File), cur, a, b, hostSays);
      !Exists(r, Resolve(cur, a)) && IsFile(r, Resolve(cur, b))
  {
    var sa, sb := cur + [a], cur + [b];
    SegmentsOfName(a);
    SegmentsOfName(b);
    assert Resolve(cur, a) == sa && Resolve(cur, b) == sb;
    CanonOfCanonical(cur);
    CanonOfCanonical(sa);
    CanonOfCanonical(sb);
    StoredReachable(fs, cur, a);
    StoredReachable(fs, cur, b);
    var made := TouchFresh(fs, cur, a);
    MoveFresh(made, cur, a, b, hostSays);
  }

  /** `mv a b` of the file `a` to the free name `b` beside it, in a
      directory of a tree: `b` becomes a file and `a` is gone. */
  lemma MoveFresh(made: Fs, cur: Path, a: string, b: string, hostSays: bool)
    requires Tree(made) && Canonical(cur) && DirAt(made, cur) && hostSays
    requires IsComponent(a) && !IsDot(a) && IsComponent(b) && !IsDot(b) && a != b
    requires Segments(a) == [a] && Segments(b) == [b]
    requires cur + [a] in made && made[cur + [a]] == File && cur + [b] !in made
    ensures var r := Move(made, cur, a, b, hostSays);
      !Exists(r, cur + [a]) && IsFile(r, cur + [b])
  {
    var sa, sb := cur + [a], cur + [b];
    assert Resolve(cur, a) == sa && Resolve(cur, b) == sb;
    assert Canonical(sa) && Canonical(sb);
    CanonOfCanonical(sa);
    CanonOfCanonical(sb);
    StoredReachable(made, cur, a);
    StoredReachable(made, cur, b);
    assert !IsDir(made, sb);
    assert MoveTarget(made, cur, a, b) == sb;
    assert !Below(sa, sb) && !Below(sb, sa);
    assert Parent(sb) == cur;
    MoveMovesEntry(made, cur, a, b, hostSays);
    var r := Move(made, cur, a, b, hostSays);
    assert !AtOrBelow(sa, cur) && !AtOrBelow(sb, cur);
    assert Tree(r) by {
      MoveKeepsTree(made, cur, a, b, hostSays);
    }
    StoredReachable(r, cur, b);
  }

  /** `touch a` of a fresh plain name in a directory of a tree adds exactly
      the file `cur + [a]`. */
  lemma TouchFresh(fs: Fs, cur: Path, a: string) returns (made: Fs)
    requires Tree(fs) && Canonical(cur) && DirAt(fs, cur)
    requires IsComponent(a) && !IsDot(a) && Reachable(fs, cur + [a]) && cur + [a] !in fs
    requires Segments(a) == [a] && Canon(cur + [a]) == cur + [a]
    ensures made == CreateEach(fs, cur, [a], File) && made == fs[cur + [a] := File]
    ensures Tree(made) && DirAt(made, cur)
  {
    assert [a][..0] == [];
    assert Resolve(cur, a) == cur + [a];
    assert Parent(cur + [a]) == cur;
    CreateEachStep(fs, cur, [a], File);
    made := CreateEach(fs, cur, [a], File);
    CreateKeepsTree(fs, cur + [a], File);
  }

  lemma SegmentsOfName(n: string)
    requires IsComponent(n)
    ensures Segments(n) == [n]
  {
    SegmentLengthOfName(n, "");
    assert n + "" == n;
    assert n[..|n|] == n && n[|n|..] == [];
  }

  // ---------------------------------------------------------------------
  // ls

  /** The names `ls` shows: the entries of the current directory, without
      the hidden ones unless asked for; nothing when the current directory
      cannot be listed. */
  function Listed(fs: Fs, cur: Path, showHidden: bool): (names: set<Name>)
    ensures names <= Children(fs, Canon(cur))
    ensures !showHidden ==> forall n :: n in names ==> !Hidden(n)
    ensures IsDir(fs, cur) ==> forall n :: n in Children(fs, Canon(cur)) && (showHidden || !Hidden(n)) ==> n in names
    ensures !IsDir(fs, cur) ==> names == {}
  {
    if IsDir(fs, cur) then set n | n in Children(fs, Canon(cur)) && (showHidden || !Hidden(n)) else {}
  }
}
