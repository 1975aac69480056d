/**
 * Character classes and the small string operations the interpreter's
 * command line relies on: `String.trim`, `String.split("\\s+")`,
 * `String.contains` and `String.join`, as the shell uses them.
 */
module Text {

  datatype Option<+T> = None | Some(value: T)

  /** A character of the regular-expression class `\s`: space, tab, line feed,
      vertical tab, form feed, carriage return. */
  predicate IsSpace(c: char) {
    c == ' ' || c == '\t' || c == '\n' || c == '\U{000B}' || c == '\U{000C}' || c == '\r'
  }

  /** A character that `String.trim` removes: any code point up to and including ' '. */
  predicate IsBlank(c: char) {
    c <= ' '
  }

  predicate NoSpace(w: string) {
    forall i :: 0 <= i < |w| ==> !IsSpace(w[i])
  }

  /** A non-empty run of separator characters, as `\s+` matches it. */
  predicate Separator(sp: string) {
    sp != [] && forall i :: 0 <= i < |sp| ==> IsSpace(sp[i])
  }

  /** Every character is visible, i.e. above ' ' (so neither trimmed nor a separator). */
  predicate Printable(w: string) {
    forall i :: 0 <= i < |w| ==> !IsBlank(w[i])
  }

  /** `s` starts and ends with a character `String.trim` keeps (or is empty). */
  predicate Trimmed(s: string) {
    s == [] || (!IsBlank(s[0]) && !IsBlank(s[|s| - 1]))
  }

  /** Index of the first character `String.trim` keeps, or `|s|` if it
      keeps none. */
  function KeptFrom(s: string): (i: nat)
    ensures i <= |s| && (i == |s| || !IsBlank(s[i]))
    ensures forall k :: 0 <= k < i ==> IsBlank(s[k])
  {
    if s == [] || !IsBlank(s[0]) then 0 else 1 + KeptFrom(s[1..])
  }

  /** One past the last character `String.trim` keeps in `s[i..e]`, or `i`
      if it keeps none there. */
  function KeptTo(s: string, i: nat, e: nat): (j: nat)
    requires i <= e <= |s|
    ensures i <= j <= e && (j == i || !IsBlank(s[j - 1]))
    ensures forall k :: j <= k < e ==> IsBlank(s[k])
    decreases e
  {
    if e == i || !IsBlank(s[e - 1]) then e else KeptTo(s, i, e - 1)
  }

  /** Every character of `s` before `i` and from `j` on is blank. */
  predicate BlankOutside(s: string, i: nat, j: nat)
    requires i <= j <= |s|
  {
    (forall k :: 0 <= k < i ==> IsBlank(s[k])) && (forall k :: j <= k < |s| ==> IsBlank(s[k]))
  }

  /** `String.trim`: the blank characters at both ends removed, i.e. the
      slice of `s` that starts and ends with a kept character and has only
      blanks outside it. */
  function Trim(s: string): (r: string)
    ensures Trimmed(r) && |r| <= |s|
    ensures exists i: nat, j: nat :: i <= j <= |s| && r == s[i..j] && BlankOutside(s, i, j)
    ensures Trimmed(s) ==> r == s
  {
    var i := KeptFrom(s);
    var j := KeptTo(s, i, |s|);
    assert BlankOutside(s, i, j);
    assert Trimmed(s) ==> i == 0 && j == |s|;
    s[i..j]
  }

  /** Length of the run of non-separator characters at the start of `s`. */
  function WordLength(s: string): (k: nat)
    ensures k <= |s| && NoSpace(s[..k])
    ensures k == |s| || IsSpace(s[k])
  {
    if s == [] || IsSpace(s[0]) then 0 else 1 + WordLength(s[1..])
  }

  /** The maximal runs of non-separator characters of `s`, in order. */
  function Words(s: string): (ws: seq<string>)
    ensures forall i :: 0 <= i < |ws| ==> ws[i] != [] && NoSpace(ws[i])
    decreases |s|
  {
    if s == [] then []
    else if IsSpace(s[0]) then Words(s[1..])
    else
      var k := WordLength(s);
      [s[..k]] + Words(s[k..])
  }

  /** `input.split("\\s+")` on a trimmed line: Java yields a single empty
      token for the empty line, and the whitespace-separated words otherwise
      (a trimmed line has no leading or trailing separator). */
  function Tokens(input: string): (ts: seq<string>)
    requires Trimmed(input)
    ensures |ts| >= 1
    ensures input == [] ==> ts == [""]
    ensures input != [] ==> forall i :: 0 <= i < |ts| ==> ts[i] != [] && NoSpace(ts[i])
    ensures input != [] ==> ts[0] == input[..WordLength(input)]
  {
    if input == [] then [""] else Words(input)
  }

  /** Words written one after another with the run `seps[i]` between
      `ws[i]` and `ws[i + 1]`: a command line as a user types it. */
  function Spaced(ws: seq<string>, seps: seq<string>): string
    requires |ws| >= 1 && |seps| == |ws| - 1
    decreases |ws|
  {
    if |ws| == 1 then ws[0] else ws[0] + seps[0] + Spaced(ws[1..], seps[1..])
  }

  /** `String.join(sep, ss)`: the result starts with the first string and
      ends with the last one. */
  function Join(ss: seq<string>, sep: string): (r: string)
    ensures ss != [] ==> |ss[0]| <= |r| && r[..|ss[0]|] == ss[0]
    ensures ss != [] ==> |ss[|ss| - 1]| <= |r| && r[|r| - |ss[|ss| - 1]|..] == ss[|ss| - 1]
  {
    if ss == [] then ""
    else if |ss| == 1 then ss[0]
    else ss[0] + sep + Join(ss[1..], sep)
  }

  /** `sub` occurs in `s` starting at position `i`. */
  predicate OccursAt(s: string, sub: string, i: nat) {
    i + |sub| <= |s| && s[i..i + |sub|] == sub
  }

  /** `s.contains(sub)`: `sub` occurs at some position of `s`. */
  function Contains(s: string, sub: string): (b: bool)
    ensures b <==> exists i: nat :: OccursAt(s, sub, i)
    decreases |s|
  {
    if |s| < |sub| then
      assert forall i: nat :: !OccursAt(s, sub, i);
      false
    else if s[..|sub|] == sub then
      assert OccursAt(s, sub, 0);
      true
    else
      var b := Contains(s[1..], sub);
      if b then
        var i: nat :| OccursAt(s[1..], sub, i);
        assert s[1..][i..i + |sub|] == s[i + 1..i + 1 + |sub|];
        assert OccursAt(s, sub, i + 1);
        b
      else
        assert forall k: nat :: !OccursAt(s[1..], sub, k);
        forall i: nat ensures !OccursAt(s, sub, i) {
          if 0 < i && i + |sub| <= |s| {
            var k: nat := i - 1;
            assert s[1..][k..k + |sub|] == s[i..i + |sub|];
            assert !OccursAt(s[1..], sub, k);
          }
        }
        b
  }

  /** Index of the first occurrence of `c` in `s`, or `|s|` if there is none. */
  function IndexOf(s: string, c: char): (i: nat)
    ensures i <= |s| && c !in s[..i]
    ensures i < |s| ==> s[i] == c
  {
    if s == [] then 0
    else if s[0] == c then 0
    else 1 + IndexOf(s[1..], c)
  }

  /** `s` with its leading separator characters removed (a regex `\s*`). */
  function DropSpaces(s: string): (r: string)
    ensures |r| <= |s| && r == s[|s| - |r|..]
    ensures r == [] || !IsSpace(r[0])
    ensures forall i :: 0 <= i < |s| - |r| ==> IsSpace(s[i])
  {
    if s != [] && IsSpace(s[0]) then
      var r := DropSpaces(s[1..]);
      assert s[1..][|s| - 1 - |r|..] == s[|s| - |r|..];
      assert forall i :: 1 <= i < |s| ==> s[1..][i - 1] == s[i];
      r
    else s
  }

  // ---------------------------------------------------------------------
  // Properties

  /** A match of the longer pattern ">>" is also a match of ">". */
  lemma ContainsDoubleImpliesSingle(s: string)
    ensures Contains(s, ">>") ==> Contains(s, ">")
  {
    if Contains(s, ">>") {
      var i: nat :| OccursAt(s, ">>", i);
      assert s[i..i + 1] == s[i..i + 2][..1];
      assert OccursAt(s, ">", i);
    }
  }

  lemma {:induction false} WordLengthOfWord(w: string, rest: string)
    requires NoSpace(w)
    requires rest == [] || IsSpace(rest[0])
    ensures WordLength(w + rest) == |w|
    decreases |w|
  {
    if w != [] {
      assert (w + rest)[1..] == w[1..] + rest;
      WordLengthOfWord(w[1..], rest);
    }
  }

  /** Splitting the words back apart after joining them with one separator
      character (a space, a line feed, ...) gives the words again. */
  lemma {:induction false} WordsOfJoin(ws: seq<string>, c: char)
    requires IsSpace(c)
    requires forall i :: 0 <= i < |ws| ==> ws[i] != [] && NoSpace(ws[i])
    ensures Words(Join(ws, [c])) == ws
  {
    if ws == [] {
    } else if |ws| == 1 {
      WordsOfWord(ws[0]);
    } else {
      var rest := Join(ws[1..], [c]);
      assert Join(ws, [c]) == ws[0] + [c] + rest;
      WordsOfRun(ws[0], [c], rest);
      WordsOfJoin(ws[1..], c);
      assert ws == [ws[0]] + ws[1..];
    }
  }

  /** A single word splits into itself. */
  lemma WordsOfWord(w: string)
    requires w != [] && NoSpace(w)
    ensures Words(w) == [w]
  {
    WordLengthOfWord(w, "");
    assert w + "" == w;
    assert w[..|w|] == w && w[|w|..] == [];
  }

  /** Separator characters in front of a text add no word. */
  lemma {:induction false} WordsOfSpaces(sp: string, rest: string)
    requires forall i :: 0 <= i < |sp| ==> IsSpace(sp[i])
    ensures Words(sp + rest) == Words(rest)
    decreases |sp|
  {
    if sp != [] {
      assert (sp + rest)[0] == sp[0];
      assert Words(sp + rest) == Words((sp + rest)[1..]);
      assert (sp + rest)[1..] == sp[1..] + rest;
      assert forall i :: 0 <= i < |sp[1..]| ==> IsSpace(sp[1..][i]);
      WordsOfSpaces(sp[1..], rest);
    } else {
      assert sp + rest == rest;
    }
  }

  /** A word followed by a run of separator characters and more text splits
      into that word and the words of the text, however long the run. */
  lemma WordsOfRun(w: string, sp: string, rest: string)
    requires w != [] && NoSpace(w)
    requires Separator(sp)
    ensures Words(w + sp + rest) == [w] + Words(rest)
  {
    var s := w + sp + rest;
    WordLengthOfWord(w, sp + rest);
    assert s == w + (sp + rest);
    assert s[..|w|] == w;
    assert s[|w|..] == sp + rest;
    WordsOfSpaces(sp, rest);
  }

  /** A word of printable characters has no separator in it. */
  lemma PrintableNoSpace(w: string)
    requires Printable(w)
    ensures NoSpace(w)
  {
    forall j | 0 <= j < |w| ensures !IsSpace(w[j]) {
      assert !IsBlank(w[j]);
    }
  }

  /** Splitting words written with separator runs between them gives the
      words again. */
  lemma {:induction false} WordsOfSpaced(ws: seq<string>, seps: seq<string>)
    requires |ws| >= 1 && |seps| == |ws| - 1
    requires forall i :: 0 <= i < |ws| ==> ws[i] != [] && NoSpace(ws[i])
    requires forall i :: 0 <= i < |seps| ==> Separator(seps[i])
    ensures Words(Spaced(ws, seps)) == ws
    decreases |ws|
  {
    if |ws| == 1 {
      WordsOfWord(ws[0]);
    } else {
      var rest := Spaced(ws[1..], seps[1..]);
      WordsOfRun(ws[0], seps[0], rest);
      WordsOfSpaced(ws[1..], seps[1..]);
      assert ws == [ws[0]] + ws[1..];
    }
  }

  /** Written out, the words start with the first character of the first
      word and end with the last character of the last word. */
  lemma {:induction false} SpacedEnds(ws: seq<string>, seps: seq<string>)
    requires |ws| >= 1 && |seps| == |ws| - 1
    requires forall i :: 0 <= i < |ws| ==> ws[i] != []
    ensures var r, last := Spaced(ws, seps), ws[|ws| - 1];
      r != [] && r[0] == ws[0][0] && r[|r| - 1] == last[|last| - 1]
    decreases |ws|
  {
    if |ws| > 1 {
      SpacedEnds(ws[1..], seps[1..]);
      var rest := Spaced(ws[1..], seps[1..]);
      assert Spaced(ws, seps) == ws[0] + seps[0] + rest;
    }
  }

  /** `String.trim` removes exactly the blank characters around a text that
      starts and ends with a character it keeps. */
  lemma TrimAround(lead: string, x: string, trail: string)
    requires x != [] && Trimmed(x)
    requires forall i :: 0 <= i < |lead| ==> IsBlank(lead[i])
    requires forall i :: 0 <= i < |trail| ==> IsBlank(trail[i])
    ensures Trim(lead + x + trail) == x
  {
    var s := lead + x + trail;
    var e := |lead| + |x|;
    var i := KeptFrom(s);
    assert i == |lead| by {
      assert s[|lead|] == x[0];
      assert forall k :: 0 <= k < |lead| ==> s[k] == lead[k];
    }
    var j := KeptTo(s, i, |s|);
    assert j == e by {
      assert s[e - 1] == x[|x| - 1];
      assert forall k :: e <= k < |s| ==> s[k] == trail[k - e];
    }
    assert s[i..j] == x;
  }

  /** A line of printable words separated by runs of separator characters,
      with blank characters before and after it, is split into exactly
      those words. */
  lemma TokensOfSpaced(lead: string, ws: seq<string>, seps: seq<string>, trail: string)
    requires |ws| >= 1 && |seps| == |ws| - 1
    requires forall i :: 0 <= i < |ws| ==> ws[i] != [] && Printable(ws[i])
    requires forall i :: 0 <= i < |seps| ==> Separator(seps[i])
    requires forall i :: 0 <= i < |lead| ==> IsBlank(lead[i])
    requires forall i :: 0 <= i < |trail| ==> IsBlank(trail[i])
    ensures Tokens(Trim(lead + Spaced(ws, seps) + trail)) == ws
  {
    var x := Spaced(ws, seps);
    SpacedEnds(ws, seps);
    TrimAround(lead, x, trail);
    forall i | 0 <= i < |ws| ensures NoSpace(ws[i]) {
      PrintableNoSpace(ws[i]);
    }
    WordsOfSpaced(ws, seps);
  }
}
