/**
 * The order `ls` sorts names in: `String.compareTo` (lexicographic by
 * character, a proper prefix first) or its reverse
 * (`Collections.reverseOrder()`), and what it means for a sequence of names
 * to be the sorted listing of a set of entries.
 */
module Ordering {

  /** `a.compareTo(b) < 0`: a string never comes before itself, and a
      proper prefix comes before the longer string. */
  function Less(a: string, b: string): (r: bool)
    ensures r ==> a != b
    ensures |a| < |b| && a == b[..|a|] ==> r
  {
    if a == [] then b != []
    else if b == [] then false
    else a[0] < b[0] || (a[0] == b[0] && Less(a[1..], b[1..]))
  }

  /** `compareTo` decides at the first position where the strings differ:
      the one with the smaller character there comes first, whatever
      their lengths. */
  lemma {:induction false} LessAtFirstDifference(a: string, b: string, i: nat)
    requires i < |a| && i < |b| && a[..i] == b[..i] && a[i] != b[i]
    ensures Less(a, b) <==> a[i] < b[i]
    decreases i
  {
    if i > 0 {
      assert a[0] == a[..i][0] == b[..i][0] == b[0];
      assert a[1..][..i - 1] == a[..i][1..] == b[..i][1..] == b[1..][..i - 1];
      LessAtFirstDifference(a[1..], b[1..], i - 1);
    }
  }

  lemma {:induction false} LessIrreflexive(a: string)
    ensures !Less(a, a)
  {
    if a != [] {
      LessIrreflexive(a[1..]);
    }
  }

  lemma {:induction false} LessTransitive(a: string, b: string, c: string)
    requires Less(a, b) && Less(b, c)
    ensures Less(a, c)
  {
    if a != [] && b != [] && c != [] && a[0] == b[0] == c[0] {
      LessTransitive(a[1..], b[1..], c[1..]);
    }
  }

  lemma {:induction false} LessTotal(a: string, b: string)
    requires a != b
    ensures Less(a, b) || Less(b, a)
  {
    if a != [] && b != [] && a[0] == b[0] {
      assert a == [a[0]] + a[1..] && b == [b[0]] + b[1..];
      LessTotal(a[1..], b[1..]);
    }
  }

  /** The comparator of the sort: natural order, or reversed. */
  predicate Before(a: string, b: string, reverse: bool) {
    if reverse then Less(b, a) else Less(a, b)
  }

  lemma BeforeIrreflexive(a: string, reverse: bool)
    ensures !Before(a, a, reverse)
  {
    LessIrreflexive(a);
  }

  lemma BeforeTransitive(a: string, b: string, c: string, reverse: bool)
    requires Before(a, b, reverse) && Before(b, c, reverse)
    ensures Before(a, c, reverse)
  {
    if reverse { LessTransitive(c, b, a); } else { LessTransitive(a, b, c); }
  }

  lemma BeforeTotal(a: string, b: string, reverse: bool)
    requires a != b
    ensures Before(a, b, reverse) || Before(b, a, reverse)
  {
    LessTotal(a, b);
  }

  lemma BeforeAsymmetric(a: string, b: string, reverse: bool)
    requires Before(a, b, reverse)
    ensures !Before(b, a, reverse)
  {
    if Before(b, a, reverse) {
      BeforeTransitive(a, b, a, reverse);
      BeforeIrreflexive(a, reverse);
    }
  }

  /** Strictly increasing under the comparator, hence without repetitions. */
  predicate Sorted(s: seq<string>, reverse: bool) {
    forall i, j :: 0 <= i < j < |s| ==> Before(s[i], s[j], reverse)
  }

  /** `names` lists exactly the names in `entries`, in comparator order. */
  predicate IsListing(names: seq<string>, entries: set<string>, reverse: bool) {
    && Sorted(names, reverse)
    && (forall n :: n in names ==> n in entries)
    && (forall n :: n in entries ==> n in names)
  }

  /** `x` inserted into the sorted `s` at its place. */
  function Insert(s: seq<string>, x: string, reverse: bool): (r: seq<string>)
    requires Sorted(s, reverse) && x !in s
    ensures Sorted(r, reverse)
    ensures multiset(r) == multiset(s) + multiset{x}
  {
    if s == [] then [x]
    else if Before(x, s[0], reverse) then
      BeforeAllOfSorted(x, s, reverse);
      SortedCons(x, s, reverse);
      [x] + s
    else
      BeforeTotal(x, s[0], reverse);
      var t := Insert(s[1..], x, reverse);
      assert s == [s[0]] + s[1..];
      HeadBeforeInserted(s, x, t, reverse);
      SortedCons(s[0], t, reverse);
      [s[0]] + t
  }

  /** A name before the first of a sorted sequence is before all of it. */
  lemma BeforeAllOfSorted(x: string, s: seq<string>, reverse: bool)
    requires Sorted(s, reverse) && s != [] && Before(x, s[0], reverse)
    ensures forall j :: 0 <= j < |s| ==> Before(x, s[j], reverse)
  {
    forall j | 0 < j < |s| ensures Before(x, s[j], reverse) {
      BeforeTransitive(x, s[0], s[j], reverse);
    }
  }

  lemma SortedCons(h: string, t: seq<string>, reverse: bool)
    requires Sorted(t, reverse)
    requires forall j :: 0 <= j < |t| ==> Before(h, t[j], reverse)
    ensures Sorted([h] + t, reverse)
  {
    var r := [h] + t;
    forall i, j | 0 <= i < j < |r| ensures Before(r[i], r[j], reverse) {
      assert r[j] == t[j - 1];
      if i > 0 {
        assert r[i] == t[i - 1];
      }
    }
  }

  /** The head of a sorted sequence, placed before `x`, is before every name
      of the tail with `x` inserted. */
  lemma HeadBeforeInserted(s: seq<string>, x: string, t: seq<string>, reverse: bool)
    requires Sorted(s, reverse) && s != [] && Before(s[0], x, reverse)
    requires multiset(t) == multiset(s[1..]) + multiset{x}
    ensures forall j :: 0 <= j < |t| ==> Before(s[0], t[j], reverse)
  {
    forall j | 0 <= j < |t| ensures Before(s[0], t[j], reverse) {
      assert t[j] in multiset(t);
      if t[j] != x {
        assert t[j] in multiset(s[1..]);
        var k :| 0 <= k < |s[1..]| && s[1..][k] == t[j];
        assert s[k + 1] == t[j];
      }
    }
  }

  function Reverse(s: seq<string>): (r: seq<string>)
    ensures |r| == |s|
    ensures forall i :: 0 <= i < |s| ==> r[i] == s[|s| - 1 - i]
  {
    seq(|s|, i requires 0 <= i < |s| => s[|s| - 1 - i])
  }

  // ---------------------------------------------------------------------
  // Properties

  /** Reading an ascending listing backwards gives the descending one. */
  lemma ReverseOfListing(a: seq<string>, entries: set<string>)
    requires IsListing(a, entries, false)
    ensures IsListing(Reverse(a), entries, true)
  {
    var r := Reverse(a);
    forall n ensures n in r <==> n in a {
      if n in a {
        var i :| 0 <= i < |a| && a[i] == n;
        assert r[|a| - 1 - i] == n;
      }
    }
  }

  /** There is only one sorted listing of a set of names. */
  lemma {:induction false} ListingUnique(a: seq<string>, b: seq<string>, entries: set<string>, reverse: bool)
    requires IsListing(a, entries, reverse) && IsListing(b, entries, reverse)
    ensures a == b
    decreases |a|
  {
    if a == [] {
      assert entries == {};
      ListingLength(b, entries, reverse);
    } else {
      assert a[0] in entries;
      assert b != [];
      if a[0] != b[0] {
        assert b[0] in entries && b[0] in a;
        var i :| 0 <= i < |a| && a[i] == b[0];
        var j :| 0 <= j < |b| && b[j] == a[0];
        assert i > 0 && j > 0;
        BeforeAsymmetric(a[0], b[0], reverse);
        assert false;
      }
      var rest := entries - {a[0]};
      TailIsListing(a, entries, reverse);
      TailIsListing(b, entries, reverse);
      ListingUnique(a[1..], b[1..], rest, reverse);
      assert a == [a[0]] + a[1..] && b == [b[0]] + b[1..];
    }
  }

  lemma TailIsListing(a: seq<string>, entries: set<string>, reverse: bool)
    requires IsListing(a, entries, reverse) && a != []
    ensures IsListing(a[1..], entries - {a[0]}, reverse)
  {
    forall n | n in a[1..] ensures n != a[0] {
      var k :| 0 <= k < |a[1..]| && a[1..][k] == n;
      assert Before(a[0], a[k + 1], reverse);
      BeforeIrreflexive(a[0], reverse);
    }
    forall n | n in entries - {a[0]} ensures n in a[1..] {
      var k :| 0 <= k < |a| && a[k] == n;
      assert a[1..][k - 1] == n;
    }
  }

  /** `ls -r` lists the same names as `ls`, in exactly the opposite order. */
  lemma DescendingIsReversedAscending(up: seq<string>, down: seq<string>, entries: set<string>)
    requires IsListing(up, entries, false) && IsListing(down, entries, true)
    ensures down == Reverse(up)
  {
    ReverseOfListing(up, entries);
    ListingUnique(down, Reverse(up), entries, true);
  }

  /** A listing names every entry exactly once. */
  lemma {:induction false} ListingLength(a: seq<string>, entries: set<string>, reverse: bool)
    requires IsListing(a, entries, reverse)
    ensures |a| == |entries|
    decreases |a|
  {
    if a == [] {
      assert entries == {};
    } else {
      TailIsListing(a, entries, reverse);
      ListingLength(a[1..], entries - {a[0]}, reverse);
      assert a[0] in entries;
    }
  }

  /** Every set of names has a sorted listing: insert the names one by one. */
  lemma {:induction false} ListingExists(entries: set<string>, reverse: bool)
    ensures exists r :: IsListing(r, entries, reverse)
    decreases |entries|
  {
    if entries == {} {
      assert IsListing([], entries, reverse);
    } else {
      var x :| x in entries;
      ListingExists(entries - {x}, reverse);
      var r :| IsListing(r, entries - {x}, reverse);
      var t := Insert(r, x, reverse);
      forall n | n in t ensures n in entries {
        assert n in multiset(t);
        if n != x {
          assert n in multiset(r);
          assert n in r;
        }
      }
      forall n | n in entries ensures n in t {
        if n != x {
          assert n in entries - {x};
          assert n in r;
          assert n in multiset(r);
        }
        assert n in multiset(t);
      }
      assert IsListing(t, entries, reverse);
    }
  }

  /** The sorted listing of a set of names (unique by `ListingUnique`). */
  ghost function Listing(entries: set<string>, reverse: bool): (r: seq<string>)
    ensures IsListing(r, entries, reverse)
  {
    ListingExists(entries, reverse);
    var r :| IsListing(r, entries, reverse);
    r
  }
}
