/**
 * The host filesystem as the interpreter sees it through `java.io.File`: a
 * finite map from stored (canonical) absolute paths to the kind of entry
 * there, and the primitives `mkdir`, `createNewFile`, `delete` and
 * `renameTo` with the conditions under which a POSIX host carries them out.
 */
module FileSystem {
  import opened Paths

  datatype Kind = File | Directory

  type Fs = map<Path, Kind>

  /** `c` is a stored directory. */
  predicate DirAt(fs: Fs, c: Path) {
    c in fs && fs[c] == Directory
  }

  /** The host can walk `p`: it looks the names up one at a time, each inside
      the directory the names before it lead to, so every proper prefix must
      lead to an existing directory. A "." or ".." after a missing name or
      after a file stops the walk. */
  predicate Reachable(fs: Fs, p: Path) {
    forall k :: 0 <= k < |p| ==> DirAt(fs, Canon(p[..k]))
  }

  /** `File.exists` */
  predicate Exists(fs: Fs, p: Path) {
    Reachable(fs, p) && Canon(p) in fs
  }

  /** `File.isDirectory` */
  predicate IsDir(fs: Fs, p: Path) {
    Reachable(fs, p) && Canon(p) in fs && fs[Canon(p)] == Directory
  }

  /** `File.isFile` */
  predicate IsFile(fs: Fs, p: Path) {
    Reachable(fs, p) && Canon(p) in fs && fs[Canon(p)] == File
  }

  /** `File.isHidden` on a Unix host: the name starts with '.'. */
  predicate Hidden(n: Name) {
    n != [] && n[0] == '.'
  }

  /** `k` is the stored path `c` itself or lies below it. */
  predicate AtOrBelow(c: Path, k: Path) {
    |c| <= |k| && k[..|c|] == c
  }

  /** The names of the entries directly inside the stored path `c`
      (`File.list`). */
  function Children(fs: Fs, c: Path): set<Name> {
    set k | k in fs && |k| == |c| + 1 && k[..|c|] == c :: k[|c|]
  }

  /** What every host filesystem looks like: the root is a directory, every
      stored path is canonical, and every other entry sits in a directory. */
  predicate Tree(fs: Fs) {
    && [] in fs && fs[[]] == Directory
    && (forall k :: k in fs ==> Canonical(k))
    && (forall k :: k in fs && k != [] ==> Parent(k) in fs && fs[Parent(k)] == Directory)
  }

  /** `mkdir` / `createNewFile` succeed: the path can be walked, is new, is
      not the root, does not end in "." or "..", and its parent is a
      directory. */
  predicate CanCreate(fs: Fs, t: Path) {
    var c := Canon(t);
    Reachable(fs, t) && c !in fs && c != [] && !Dotted(t) && Parent(c) in fs && fs[Parent(c)] == Directory
  }

  /** The host creates an entry of the given kind at `t`, or nothing changes. */
  function Create(fs: Fs, t: Path, kind: Kind): (r: Fs)
    ensures Exists(fs, t) ==> r == fs
    ensures forall k :: k in fs ==> k in r && r[k] == fs[k]
    ensures forall k :: k in r && k !in fs ==> k == Canon(t) && r[k] == kind
  {
    if CanCreate(fs, t) then fs[Canon(t) := kind] else fs
  }

  /** `File.delete` succeeds: the entry exists, is not the root, the path does
      not end in "." or "..", and a directory has to be empty. */
  predicate CanDelete(fs: Fs, t: Path) {
    var c := Canon(t);
    Reachable(fs, t) && c in fs && c != [] && !Dotted(t) && (fs[c] == Directory ==> Children(fs, c) == {})
  }

  function Delete(fs: Fs, t: Path): (r: Fs)
    ensures r.Keys <= fs.Keys
    ensures forall k :: k in r ==> r[k] == fs[k]
    ensures forall k :: k in fs && k != Canon(t) ==> k in r
  {
    if CanDelete(fs, t) then fs - {Canon(t)} else fs
  }

  /** `renameTo` can succeed: both paths are usable, neither lies inside the
      other, the target's parent is a directory, and an existing target is a
      file replaced by a file or an empty directory replaced by a directory. */
  predicate CanRename(fs: Fs, s: Path, d: Path) {
    var sc, dc := Canon(s), Canon(d);
    && Reachable(fs, s) && Reachable(fs, d)
    && sc in fs && sc != [] && dc != []
    && !Dotted(s) && !Dotted(d)
    && !Below(sc, dc) && !Below(dc, sc)
    && Parent(dc) in fs && fs[Parent(dc)] == Directory
    && (dc in fs && dc != sc ==>
          (fs[dc] == File && fs[sc] == File) ||
          (fs[dc] == Directory && fs[sc] == Directory && Children(fs, dc) == {}))
  }

  /** The stored paths the entries at or below `sc` get when that subtree
      is moved to `dc`. */
  function MovedKeys(fs: Fs, sc: Path, dc: Path): set<Path> {
    set q | q in fs && AtOrBelow(sc, q) :: dc + q[|sc|..]
  }

  /** The entry at the stored path `sc`, with everything below it, moved to
      the stored path `dc`; whatever was at or below `dc` is replaced. */
  function Relocate(fs: Fs, sc: Path, dc: Path): Fs {
    var kept := map k | k in fs && !AtOrBelow(sc, k) && !AtOrBelow(dc, k) :: fs[k];
    var moved := map k | k in MovedKeys(fs, sc, dc) && AtOrBelow(dc, k) && sc + k[|dc|..] in fs
                   :: fs[sc + k[|dc|..]];
    kept + moved
  }

  /** `renameTo(d)` on `s` when the host reports success: a permitted
      rename leaves nothing at the source and the source's entry at the
      target; a refused one changes nothing. */
  function Rename(fs: Fs, s: Path, d: Path): (r: Fs)
    ensures !CanRename(fs, s, d) ==> r == fs
    ensures CanRename(fs, s, d) && Canon(s) != Canon(d) ==>
              Canon(s) !in r && Canon(d) in r && r[Canon(d)] == fs[Canon(s)]
  {
    if CanRename(fs, s, d) && Canon(s) != Canon(d) then
      RelocateMoves(fs, Canon(s), Canon(d));
      Relocate(fs, Canon(s), Canon(d))
    else fs
  }

  // ---------------------------------------------------------------------
  // Properties

  /** After a move, the source path is gone, the target holds what the source
      held, and every entry outside both subtrees is untouched. */
  lemma RelocateMoves(fs: Fs, sc: Path, dc: Path)
    requires sc in fs && sc != dc && !Below(sc, dc) && !Below(dc, sc)
    ensures var r := Relocate(fs, sc, dc);
      && sc !in r
      && dc in r && r[dc] == fs[sc]
      && forall k :: !AtOrBelow(sc, k) && !AtOrBelow(dc, k) ==>
           (k in r <==> k in fs) && (k in r ==> r[k] == fs[k])
  {
    var r := Relocate(fs, sc, dc);
    assert sc[|sc|..] == [] && dc + sc[|sc|..] == dc;
    assert dc in MovedKeys(fs, sc, dc);
    assert dc[|dc|..] == [] && sc + dc[|dc|..] == sc;
  }

  /** An entry created where the host allows it sits in a directory, so the
      filesystem stays a tree. */
  lemma CreateKeepsTree(fs: Fs, t: Path, kind: Kind)
    requires Tree(fs) && WellFormed(t)
    ensures Tree(Create(fs, t, kind))
  {
    var c := Canon(t);
    if CanCreate(fs, t) {
      var r := fs[c := kind];
      forall k | k in r
        ensures Canonical(k)
        ensures k != [] ==> Parent(k) in r && r[Parent(k)] == Directory
      {
        if k != c {
          assert k in fs;
        }
      }
    }
  }

  /** `delete` removes a file or an empty directory only, so no entry is left
      without its directory. */
  lemma DeleteKeepsTree(fs: Fs, t: Path)
    requires Tree(fs)
    ensures Tree(Delete(fs, t))
  {
    var c := Canon(t);
    var r := Delete(fs, t);
    if CanDelete(fs, t) {
      forall k | k in fs && k != [] && Parent(k) == c
        ensures k[|c|] in Children(fs, c)
      {
        assert |k| == |c| + 1 && k[..|c|] == c;
      }
    }
  }

  /** In a tree, an entry below a path means the path itself is there. */
  lemma {:induction false} AncestorPresent(fs: Fs, c: Path, k: Path)
    requires Tree(fs) && k in fs && Below(c, k)
    ensures c in fs
    decreases |k|
  {
    var p := Parent(k);
    assert p[..|c|] == c;
    if |p| > |c| {
      AncestorPresent(fs, c, p);
    }
  }

  /** In a tree, the entries of a directory have non-empty names. */
  lemma ChildrenNonEmpty(fs: Fs, c: Path)
    requires Tree(fs)
    ensures forall n :: n in Children(fs, c) ==> n != []
  {
    forall n | n in Children(fs, c) ensures n != [] {
      var k :| k in fs && |k| == |c| + 1 && k[..|c|] == c && k[|c|] == n;
      assert Canonical(k) && IsComponent(k[|c|]);
    }
  }

  /** Adding entries never stops a walk. */
  lemma ReachableGrows(fs: Fs, r: Fs, p: Path)
    requires Reachable(fs, p)
    requires forall k :: k in fs ==> k in r && r[k] == fs[k]
    ensures Reachable(r, p)
  {
  }

  /** In a tree, a stored directory and every name directly inside it can be
      walked to: the directories above it are all there. */
  lemma StoredReachable(fs: Fs, c: Path, n: Name)
    requires Tree(fs) && Canonical(c) && DirAt(fs, c)
    ensures Reachable(fs, c) && Reachable(fs, c + [n])
  {
    forall k | 0 <= k <= |c|
      ensures DirAt(fs, Canon(c[..k]))
    {
      var q := c[..k];
      assert Canonical(q) by {
        assert forall i :: 0 <= i < |q| ==> q[i] == c[i];
      }
      CanonOfCanonical(q);
      if k < |c| {
        var child := c[..k + 1];
        if k + 1 < |c| {
          AncestorPresent(fs, child, c);
        } else {
          assert child == c;
        }
        assert child in fs && child != [] && q == Parent(child);
      } else {
        assert q == c;
      }
    }
    forall k | 0 <= k < |c + [n]|
      ensures DirAt(fs, Canon((c + [n])[..k]))
    {
      assert (c + [n])[..k] == c[..k];
    }
  }

  /** Deleting what was just created gives back the filesystem as it was:
      the new entry is empty, so the host may delete it. */
  lemma CreateThenDelete(fs: Fs, t: Path, kind: Kind)
    requires Tree(fs) && CanCreate(fs, t)
    ensures var made := Create(fs, t, kind);
      Canon(t) in made && made[Canon(t)] == kind && Children(made, Canon(t)) == {}
    ensures Delete(Create(fs, t, kind), t) == fs
  {
    var c := Canon(t);
    var made := fs[c := kind];
    assert Create(fs, t, kind) == made;
    NewEntryIsEmpty(fs, c, kind);
    assert CanDelete(made, t);
    assert made - {c} == fs;
  }

  lemma NewEntryIsEmpty(fs: Fs, c: Path, kind: Kind)
    requires Tree(fs) && c !in fs
    ensures Children(fs[c := kind], c) == {}
  {
    var made := fs[c := kind];
    forall x | x in Children(made, c)
      ensures false
    {
      var k :| k in made && |k| == |c| + 1 && k[..|c|] == c && k[|c|] == x;
      assert k != c && k in fs;
      AncestorPresent(fs, c, k);
    }
  }

  /** Every entry at or below the source reappears at the same place below
      the target, with its kind. */
  lemma RelocatedEntry(fs: Fs, sc: Path, dc: Path, q: Path)
    requires q in fs && AtOrBelow(sc, q)
    ensures dc + q[|sc|..] in Relocate(fs, sc, dc)
    ensures Relocate(fs, sc, dc)[dc + q[|sc|..]] == fs[q]
  {
    var k := dc + q[|sc|..];
    assert k in MovedKeys(fs, sc, dc);
    assert k[|dc|..] == q[|sc|..];
    assert sc + q[|sc|..] == q;
  }

  /** Every entry after a move was either left alone or came from below the
      source. */
  lemma RelocatedOrigin(fs: Fs, sc: Path, dc: Path, k: Path)
    requires k in Relocate(fs, sc, dc)
    ensures || (k in fs && !AtOrBelow(sc, k) && !AtOrBelow(dc, k) && Relocate(fs, sc, dc)[k] == fs[k])
            || (AtOrBelow(dc, k) && sc + k[|dc|..] in fs && AtOrBelow(sc, sc + k[|dc|..])
                && Relocate(fs, sc, dc)[k] == fs[sc + k[|dc|..]])
  {
  }

  lemma RebasedCanonical(dc: Path, q: Path, n: nat)
    requires Canonical(dc) && Canonical(q) && n <= |q|
    ensures Canonical(dc + q[n..])
  {
    var k := dc + q[n..];
    assert forall i :: |dc| <= i < |k| ==> k[i] == q[i - |dc| + n];
  }

  /** The parent of a moved entry is a moved directory, or, for the moved
      entry itself, the target's parent. */
  lemma RelocatedParent(fs: Fs, sc: Path, dc: Path, k: Path)
    requires Tree(fs) && sc in fs && sc != [] && dc != [] && Canonical(dc)
    requires !Below(sc, dc) && !Below(dc, sc) && sc != dc
    requires Parent(dc) in fs && fs[Parent(dc)] == Directory
    requires AtOrBelow(dc, k) && sc + k[|dc|..] in fs && AtOrBelow(sc, sc + k[|dc|..])
    ensures Canonical(k)
    ensures Parent(k) in Relocate(fs, sc, dc) && Relocate(fs, sc, dc)[Parent(k)] == Directory
  {
    var q := sc + k[|dc|..];
    assert k == dc + q[|sc|..];
    RebasedCanonical(dc, q, |sc|);
    if q == sc {
      assert k == dc;
      ParentOfTarget(fs, sc, dc);
    } else {
      assert q in fs && q != [];
      MovedParent(fs, sc, dc, q);
    }
  }

  /** An entry strictly below the source has its parent moved with it. */
  lemma MovedParent(fs: Fs, sc: Path, dc: Path, q: Path)
    requires Below(sc, q) && Parent(q) in fs && fs[Parent(q)] == Directory
    ensures var k := dc + q[|sc|..];
      Parent(k) in Relocate(fs, sc, dc) && Relocate(fs, sc, dc)[Parent(k)] == Directory
  {
    var pq := Parent(q);
    assert pq[..|sc|] == q[..|sc|];
    RelocatedEntry(fs, sc, dc, pq);
    var k := dc + q[|sc|..];
    assert pq[|sc|..] == q[|sc|..][..|q| - |sc| - 1];
    assert dc + pq[|sc|..] == k[..|k| - 1];
  }

  lemma ParentOfTarget(fs: Fs, sc: Path, dc: Path)
    requires dc != [] && !Below(sc, dc) && sc != dc
    requires Parent(dc) in fs && fs[Parent(dc)] == Directory
    ensures Parent(dc) in Relocate(fs, sc, dc) && Relocate(fs, sc, dc)[Parent(dc)] == Directory
  {
    var p := Parent(dc);
    assert !AtOrBelow(sc, p);
    assert !AtOrBelow(dc, p);
  }

  /** The parent of an entry a move leaves alone is left alone too. */
  lemma KeptParent(fs: Fs, sc: Path, dc: Path, k: Path)
    requires Tree(fs) && k in fs && k != [] && !AtOrBelow(sc, k) && !AtOrBelow(dc, k)
    requires sc != [] && dc != []
    ensures Parent(k) in Relocate(fs, sc, dc) && Relocate(fs, sc, dc)[Parent(k)] == Directory
  {
    var p := Parent(k);
    assert !AtOrBelow(sc, p) && !AtOrBelow(dc, p);
  }

  /** A permitted rename moves a whole subtree under a directory, so the
      filesystem stays a tree. */
  lemma RenameKeepsTree(fs: Fs, s: Path, d: Path)
    requires Tree(fs) && WellFormed(s) && WellFormed(d)
    ensures Tree(Rename(fs, s, d))
  {
    var sc, dc := Canon(s), Canon(d);
    if CanRename(fs, s, d) && sc != dc {
      var r := Relocate(fs, sc, dc);
      assert !AtOrBelow(sc, []) && !AtOrBelow(dc, []);
      forall k | k in r
        ensures Canonical(k)
        ensures k != [] ==> Parent(k) in r && r[Parent(k)] == Directory
      {
        RelocatedOrigin(fs, sc, dc, k);
        if AtOrBelow(dc, k) {
          RelocatedParent(fs, sc, dc, k);
        } else if k != [] {
          KeptParent(fs, sc, dc, k);
        }
      }
    }
  }
}
