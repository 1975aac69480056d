/**
 * How `main` reads one input line: it trims the line, splits it on runs of
 * whitespace, takes the first piece as the command, looks for ">>", ">" and
 * "|" anywhere in the line, and routes to one of the interpreter's
 * operations. Here the routing decision is returned as a `Command` value
 * instead of being carried out.
 */
module Dispatch {
  import opened Text

  datatype Command =
    | Pwd
    | Cd(path: string)
    | Ls(showHidden: bool, reverseOrder: bool)
    | Mkdir(dirNames: seq<string>)
    | Rmdir(dirName: string)
    | RmdirWithoutName
    | Touch(fileNames: seq<string>)
    | Mv(source: string, destination: string)
    | MvWithoutNames
    | Rm(fileName: string)
    | Cat(fileName: string)
    | CatWithoutName
    | CatWrite(target: string, append: bool)
    | CatPipe
    | Help
    | Exit
    | Unknown
      /** an exception raised while routing, which `main` reports as invalid input */
    | InvalidInput

  /** The command word of the line: the first whitespace-separated token of
      the trimmed line (empty for a blank line). */
  function CommandName(line: string): (c: string)
    ensures c == Tokens(Trim(line))[0]
    ensures Trim(line) == [] ==> c == []
    ensures Trim(line) != [] ==>
              && c != [] && |c| <= |Trim(line)| && c == Trim(line)[..|c|]
              && NoSpace(c)
              && (|c| == |Trim(line)| || IsSpace(Trim(line)[|c|]))
  {
    Tokens(Trim(line))[0]
  }

  /** Every character of `s` is '>' or a separator, so the redirect split
      keeps no piece after the first. */
  predicate OnlySeparators(s: string) {
    forall j :: 0 <= j < |s| ==> s[j] == '>' || IsSpace(s[j])
  }

  /** `input.split(">(>?)\\s*")[1].trim()`: the text after the first '>'
      (or ">>") and the whitespace after it, up to the next '>', trimmed.
      `None` when `split` yields no second piece, which happens when nothing
      but '>' and whitespace follows the first operator (Java drops trailing
      empty pieces) or there is no '>' at all. */
  function RedirectTarget(input: string): (r: Option<string>)
    ensures r.Some? ==> Trimmed(r.value) && '>' !in r.value
    ensures !Contains(input, ">") ==> r.None?
  {
    var i := IndexOf(input, '>');
    if i == |input| then
      None
    else
      assert OccursAt(input, ">", i);
      TargetOf(AfterOperator(input[i + 1..]))
  }

  /** What follows the first '>': a second '>' belongs to the operator, then
      the separators `\s*` after it are part of the delimiter too. */
  function AfterOperator(after: string): string {
    DropSpaces(if after != [] && after[0] == '>' then after[1..] else after)
  }

  /** The second piece of the split, trimmed, given the text after the
      delimiter. */
  function TargetOf(rest: string): (r: Option<string>)
    ensures r.Some? ==> Trimmed(r.value) && '>' !in r.value
  {
    if OnlySeparators(rest) then None
    else
      var piece := rest[..IndexOf(rest, '>')];
      TrimOmits(piece, '>');
      Some(Trim(piece))
  }

  /** The routing `main` performs for one input line: a command word
      outside the known ones, and only such a word, is reported as unknown,
      and only `exit` ends the loop. */
  function Parse(line: string): (c: Command)
    ensures c == Unknown <==> !Known(CommandName(line))
    ensures c == Exit <==> CommandName(line) == "exit"
  {
    Route(CommandName(line), Tokens(Trim(line)), Trim(line))
  }

  /** The routing of a line whose trimmed text is `input`, split into
      `parts`, with command word `command`. */
  function Route(command: string, parts: seq<string>, input: string): (c: Command)
    requires |parts| >= 1
    ensures c == Unknown <==> !Known(command)
    ensures c == Exit <==> command == "exit"
  {
    if command == "pwd" then Pwd
    else if command == "cd" then Cd(if |parts| > 1 then parts[1] else ".")
    else if command == "ls" then Ls(Contains(input, "-a"), Contains(input, "-r"))
    else if command == "mkdir" then Mkdir(parts[1..])
    else if command == "rmdir" then (if |parts| > 1 then Rmdir(parts[1]) else RmdirWithoutName)
    else if command == "touch" then Touch(parts[1..])
    else if command == "mv" then (if |parts| == 3 then Mv(parts[1], parts[2]) else MvWithoutNames)
    else if command == "rm" then (if |parts| > 1 then Rm(parts[1]) else InvalidInput)
    else if command == "cat" then RouteCat(parts, input)
    else if command == "help" then Help
    else if command == "exit" then Exit
    else Unknown
  }

  /** `cat`: a line with ">>" or ">" writes to a file, otherwise one with
      "|" is a pipe, otherwise the file named after `cat` is read. */
  function RouteCat(parts: seq<string>, input: string): (c: Command)
    requires |parts| >= 1
    ensures c.CatWrite? || c == InvalidInput <==> Contains(input, ">")
    ensures c.CatWrite? ==> RedirectTarget(input) == Some(c.target)
    ensures c.CatWrite? ==> (c.append <==> Contains(input, ">>"))
    ensures c == InvalidInput ==> RedirectTarget(input) == None
    ensures c == CatPipe <==> !Contains(input, ">") && Contains(input, "|")
    ensures !Contains(input, ">") && !Contains(input, "|") ==>
              c == (if |parts| > 1 then Cat(parts[1]) else CatWithoutName)
  {
    ContainsDoubleImpliesSingle(input);
    var append := Contains(input, ">>");
    var redirect := Contains(input, ">");
    if redirect || append then
      (match RedirectTarget(input)
       case Some(target) => CatWrite(target, append)
       case None => InvalidInput)
    else if Contains(input, "|") then CatPipe
    else if |parts| > 1 then Cat(parts[1])
    else CatWithoutName
  }

  /** The command words `main` routes. */
  predicate Known(command: string) {
    || command == "pwd" || command == "cd" || command == "ls" || command == "mkdir"
    || command == "rmdir" || command == "touch" || command == "mv" || command == "rm"
    || command == "cat" || command == "help" || command == "exit"
  }

  // ---------------------------------------------------------------------
  // Helpers

  /** `String.trim` only removes characters. */
  lemma TrimOmits(s: string, c: char)
    requires c !in s
    ensures c !in Trim(s)
  {
    var i := KeptFrom(s);
    var j := KeptTo(s, i, |s|);
    assert Trim(s) == s[i..j];
  }

  lemma {:induction false} IndexOfAfter(pre: string, c: char, rest: string)
    requires c !in pre
    ensures IndexOf(pre + [c] + rest, c) == |pre|
    decreases |pre|
  {
    if pre != [] {
      assert (pre + [c] + rest)[1..] == pre[1..] + [c] + rest;
      IndexOfAfter(pre[1..], c, rest);
    }
  }

  lemma {:induction false} IndexOfAbsent(s: string, c: char)
    requires c !in s
    ensures IndexOf(s, c) == |s|
    decreases |s|
  {
    if s != [] {
      IndexOfAbsent(s[1..], c);
    }
  }

  lemma {:induction false} DropSpacesBefore(ws: string, t: string)
    requires forall j :: 0 <= j < |ws| ==> IsSpace(ws[j])
    requires t == [] || !IsSpace(t[0])
    ensures DropSpaces(ws + t) == t
    decreases |ws|
  {
    if ws != [] {
      assert (ws + t)[1..] == ws[1..] + t;
      DropSpacesBefore(ws[1..], t);
    }
  }

  // ---------------------------------------------------------------------
  // Properties

  /** `cat <text> > name` and `cat <text> >> name`, with any whitespace after
      the operator: the file written to is exactly `name`. */
  lemma RedirectTargetOfLine(pre: string, op: string, ws: string, name: string)
    requires '>' !in pre
    requires op == ">" || op == ">>"
    requires forall j :: 0 <= j < |ws| ==> IsSpace(ws[j])
    requires name != [] && Trimmed(name) && '>' !in name
    ensures RedirectTarget(pre + op + ws + name) == Some(name)
  {
    var rest := ws + name;
    var tail := op[1..] + rest;
    assert pre + op + ws + name == pre + ['>'] + tail;
    IndexOfAfter(pre, '>', tail);
    assert (pre + ['>'] + tail)[|pre| + 1..] == tail;
    assert !IsSpace(name[0]) && name[0] != '>';
    AfterOperatorOfTail(op == ">>", ws, name);
    assert tail == (if op == ">>" then ">" else "") + rest;
    TargetOfName(name);
  }

  lemma AfterOperatorOfTail(double: bool, ws: string, name: string)
    requires forall j :: 0 <= j < |ws| ==> IsSpace(ws[j])
    requires name != [] && !IsSpace(name[0]) && name[0] != '>'
    ensures AfterOperator((if double then ">" else "") + (ws + name)) == name
  {
    var rest := ws + name;
    assert rest[0] != '>' by {
      if ws != [] { assert rest[0] == ws[0]; } else { assert rest[0] == name[0]; }
    }
    if double {
      var tail := ">" + rest;
      assert tail[0] == '>' && tail[1..] == rest;
    } else {
      assert "" + rest == rest;
    }
    DropSpacesBefore(ws, name);
  }

  lemma TargetOfName(name: string)
    requires name != [] && Trimmed(name) && '>' !in name
    ensures TargetOf(name) == Some(name)
  {
    assert !OnlySeparators(name) by {
      assert !(name[0] == '>' || IsSpace(name[0]));
    }
    IndexOfAbsent(name, '>');
    assert name[..|name|] == name;
  }

  /** `cd` with no argument is routed as `cd .`. */
  lemma CdWithoutArgument(line: string)
    requires Tokens(Trim(line)) == ["cd"]
    ensures Parse(line) == Cd(".")
  {
  }

  /** `mv` is routed only with exactly two names after it; any other count
      is a usage error. */
  lemma MvNeedsTwoNames(line: string)
    requires CommandName(line) == "mv"
    ensures Parse(line).Mv? <==> |Tokens(Trim(line))| == 3
    ensures Parse(line).Mv? || Parse(line) == MvWithoutNames
  {
  }

  /** `rmdir` with no name is routed to its error, not to a removal. */
  lemma RmdirWithoutNameIsError(line: string)
    requires Tokens(Trim(line)) == ["rmdir"]
    ensures Parse(line) == RmdirWithoutName
  {
  }

  /** The names typed after `mkdir` or `touch` reach the operation unchanged
      and in order (with `TokensOfSpaced`: names typed separated by any whitespace). */
  lemma NamesReachOperation(line: string, command: string, names: seq<string>)
    requires command == "mkdir" || command == "touch"
    requires Tokens(Trim(line)) == [command] + names
    ensures Parse(line) == (if command == "mkdir" then Mkdir(names) else Touch(names))
  {
    RouteNames(command, names, Trim(line));
  }

  lemma RouteNames(command: string, names: seq<string>, input: string)
    requires command == "mkdir" || command == "touch"
    ensures Route(command, [command] + names, input) == (if command == "mkdir" then Mkdir(names) else Touch(names))
  {
    assert ([command] + names)[1..] == names;
  }

  /** A line of printable words separated by runs of separator characters,
      with blank characters around it, is routed on its first word with
      exactly those words as its parts. */
  lemma ParseOfWords(lead: string, ws: seq<string>, seps: seq<string>, trail: string)
    requires |ws| >= 1 && |seps| == |ws| - 1
    requires forall i :: 0 <= i < |ws| ==> ws[i] != [] && Printable(ws[i])
    requires forall i :: 0 <= i < |seps| ==> Separator(seps[i])
    requires forall i :: 0 <= i < |lead| ==> IsBlank(lead[i])
    requires forall i :: 0 <= i < |trail| ==> IsBlank(trail[i])
    ensures var line := lead + Spaced(ws, seps) + trail;
      Parse(line) == Route(ws[0], ws, Trim(line))
  {
    TokensOfSpaced(lead, ws, seps, trail);
  }

  /** `mv a b`, with any separator runs between the words, routes to moving
      `a` to `b`. */
  lemma MvLine(source: string, destination: string, sp1: string, sp2: string)
    requires source != [] && Printable(source)
    requires destination != [] && Printable(destination)
    requires Separator(sp1) && Separator(sp2)
    ensures Parse("mv" + sp1 + source + sp2 + destination) == Mv(source, destination)
  {
    var ws := ["mv", source, destination];
    var seps := [sp1, sp2];
    var line := "mv" + sp1 + source + sp2 + destination;
    assert Parse(line) == Route("mv", ws, Trim(line)) by {
      SpacedThree("mv", source, destination, sp1, sp2);
      assert Printable("mv");
      assert forall i :: 0 <= i < |ws| ==> ws[i] != [] && Printable(ws[i]);
      assert "" + line + "" == line;
      ParseOfWords("", ws, seps, "");
    }
    RouteMv(source, destination, Trim(line));
  }

  lemma SpacedThree(a: string, b: string, c: string, sp1: string, sp2: string)
    ensures Spaced([a, b, c], [sp1, sp2]) == a + sp1 + b + sp2 + c
  {
    var tail := Spaced([b, c], [sp2]);
    SpacedCons(b, sp2, [c], []);
    assert [b] + [c] == [b, c] && [sp2] + [] == [sp2];
    assert tail == b + sp2 + c;
    SpacedCons(a, sp1, [b, c], [sp2]);
    assert [a] + [b, c] == [a, b, c] && [sp1] + [sp2] == [sp1, sp2];
    assert a + sp1 + tail == a + sp1 + b + sp2 + c;
  }

  lemma SpacedCons(w: string, sp: string, ws: seq<string>, seps: seq<string>)
    requires |ws| >= 1 && |seps| == |ws| - 1
    ensures Spaced([w] + ws, [sp] + seps) == w + sp + Spaced(ws, seps)
  {
    assert ([w] + ws)[1..] == ws && ([sp] + seps)[1..] == seps;
  }

  lemma RouteMv(source: string, destination: string, input: string)
    ensures Route("mv", ["mv", source, destination], input) == Mv(source, destination)
  {
    var ws := ["mv", source, destination];
    assert |ws| == 3 && ws[1] == source && ws[2] == destination;
  }
}
