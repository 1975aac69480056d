# A verified model of the `CommandLineInterpreter` shell

`CommandLineInterpreter` is a small interactive shell written in Java. It
keeps a current directory and the directory it was in before the last `cd`.
Its `main` loop reads one line at a time, trims it, splits it on whitespace
and routes it to one of `pwd`, `cd`, `ls`, `mkdir`, `rmdir`, `touch`, `mv`,
`rm`, `cat` (reading a file, or writing to one after `>` / `>>`), `help` and
`exit`. Every operation is a thin wrapper over `java.io.File`.

This Dafny project models that interpreter.

- **Host filesystem.** The filesystem is a finite map from canonical
  absolute paths to `File | Directory` (`FileSystem.Fs`). Its invariant
  `Tree` says the root is a directory and every other entry sits in a
  directory.
- **Host primitives.** `mkdir`/`createNewFile`, `delete` and `renameTo` are
  the functions `Create`, `Delete` and `Rename`. Each one carries the
  conditions under which a POSIX host performs it.
- **Paths.** A path is kept the way `java.io.File` keeps it: the names of
  an absolute path, with "." and ".." left as written. The host resolves
  them only when it walks the path, one name at a time. `Paths.Canon` is
  the entry a complete walk ends at. `FileSystem.Reachable` says whether
  the walk gets there: every name before the last must lead to an existing
  directory. So `nosuch/..` names nothing when `nosuch` is missing, although
  its "." and ".." cancel out on paper.
- **What each command does** is stated as functions of the state before it,
  in module `Operations`:
  - `ChangeDirectory`;
  - `CreateEach`/`Clashes` for `mkdir` and `touch`;
  - `RemoveDirectory`, `RemoveFile` and `Move`.
- **Listing order.** `Ordering` gives the order `ls` sorts in and defines
  the unique sorted listing of a set of names.
- **Routing.** `Dispatch` models the routing in `main` as a pure function:
  `Parse(line)` returns a `Command` value. It uses `String.trim`, the
  `split("\\s+")` tokens, the `contains` tests for `>>`, `>`, `|`, `-a` and
  `-r`, and the regular-expression split that extracts the target of a
  redirect.
- **The interpreter object.** `Interpreter.Shell` is a class with the
  mutable fields `fs`, `currentDirectory` and `previousDirectory`. Each Java
  method becomes a method of the class that changes those fields in place
  and returns the lines it prints. Each is proved against the functions
  above:
  - `Effect`, the filesystem after a command;
  - `NextDirectory`, the current directory after it;
  - `Output`, the lines printed.

  `Execute` carries out one routed command, and `Step` runs one iteration of
  the loop in `main`.

## Behaviour worth knowing

- `cd` stores the old current directory in `previousDirectory` even when
  the target is not a directory. There is no `cd -`.
- `cd` without an argument is `cd .`; it is not an error.
- `ls` turns on `-a` / `-r` when the line contains those two characters
  anywhere, not only when they appear as separate tokens.
- `mkdir` and `touch` with no names do nothing.
- `rmdir .` in an empty current directory prints nothing and removes
  nothing: both checks of `rmdir` pass, and the host refuses to delete a
  path ending in ".".
- `mv f f` on a file leaves `f` where it is; it prints nothing when the
  host reports success, as a POSIX rename of a path onto itself does.
- `rm` with no name indexes past the end of the token array. The exception
  is caught and "Error: Invalid input" is printed (`Command.InvalidInput`).
- A `cat` line with `>` but nothing usable after the operator makes the
  redirect split yield no second piece. It is reported the same way.

## Model

| member | source | states |
|---|---|---|
| Text.Trim | CLI/src/main/java/org/example/CommandLineInterpreter.java:148 | `String.trim`: the result is the slice of the input that starts and ends with a kept character, with only blank characters (code point at most ' ') outside it; an already trimmed input is returned as it is |
| Text.Tokens | CLI/src/main/java/org/example/CommandLineInterpreter.java:150-151 | `split("\\s+")` of a trimmed line: the empty line gives the single token "", any other line gives non-empty tokens without separators, the first being the leading run of non-separators (`TokensOfSpaced` shows that every run of whitespace separates two tokens) |
| Text.Contains | CLI/src/main/java/org/example/CommandLineInterpreter.java:153-155 | `contains` holds exactly when the pattern occurs at some position of the line |
| Text.Join | CLI/src/main/java/org/example/CommandLineInterpreter.java:169 | `String.join` starts with the first string and ends with the last one (`WordsOfJoin` shows that strings without a separator character are all kept, in order) |
| Text.WordsOfJoin | CLI/src/main/java/org/example/CommandLineInterpreter.java:169 | names without separators joined with one separator character (a space, or the line feed `ls` uses) split back into exactly those names, in order |
| Text.WordsOfSpaces | CLI/src/main/java/org/example/CommandLineInterpreter.java:151 | separator characters in front of a text add no token |
| Text.WordsOfRun | CLI/src/main/java/org/example/CommandLineInterpreter.java:151 | a word followed by a run of separator characters of any length splits into that word and the words after the run |
| Text.WordsOfSpaced | CLI/src/main/java/org/example/CommandLineInterpreter.java:151 | words written with runs of separator characters between them split back into exactly those words |
| Text.TrimAround | CLI/src/main/java/org/example/CommandLineInterpreter.java:150 | `trim` removes exactly the blank characters around a text that starts and ends with a kept character |
| Text.TokensOfSpaced | CLI/src/main/java/org/example/CommandLineInterpreter.java:150-151 | a line of printable words separated by runs of any whitespace characters (spaces, tabs, ...), with blanks before and after, is split into exactly those words |
| Text.ContainsDoubleImpliesSingle | CLI/src/main/java/org/example/CommandLineInterpreter.java:153-154 | a line containing ">>" contains ">", so `append` implies `redirect` |
| Paths.Segments | CLI/src/main/java/org/example/CommandLineInterpreter.java:20 | `new File(path)` keeps only non-empty names without '/' |
| Paths.Resolve | CLI/src/main/java/org/example/CommandLineInterpreter.java:43 | `new File(base, s)` is `base` followed by the names of `s`, and stays well formed |
| Paths.Render | CLI/src/main/java/org/example/CommandLineInterpreter.java:15 | `getAbsolutePath` always starts with '/' |
| Paths.SegmentsOfRender | CLI/src/main/java/org/example/CommandLineInterpreter.java:14-16 | reading back the printed path gives the same names |
| Paths.Canon | CLI/src/main/java/org/example/CommandLineInterpreter.java:21 | the entry a complete walk of a path ends at has no "." or ".." and is no longer than the path |
| Paths.CanonOfCanonical | CLI/src/main/java/org/example/CommandLineInterpreter.java:21 | a path without "." or ".." is looked up as itself |
| Paths.CanonOfDot | CLI/src/main/java/org/example/CommandLineInterpreter.java:163 | appending "." to a path names the same entry |
| FileSystem.Create | CLI/src/main/java/org/example/CommandLineInterpreter.java:44 | `mkdir`/`createNewFile` never change an existing entry and add at most the target itself, with the kind asked for |
| FileSystem.Delete | CLI/src/main/java/org/example/CommandLineInterpreter.java:53 | `delete` removes at most the target and keeps every other entry as it was |
| FileSystem.Rename | CLI/src/main/java/org/example/CommandLineInterpreter.java:82 | a `renameTo` the host permits (`CanRename`: both paths can be walked, the source exists, neither lies inside the other, the target's parent is a directory, an existing target is replaced only by an entry of its kind and, when a directory, only if empty) leaves, for distinct source and target, nothing at the source and the source's entry at the target; a refused one changes nothing |
| FileSystem.CreateKeepsTree | CLI/src/main/java/org/example/CommandLineInterpreter.java:44 | creating keeps every entry inside a directory |
| FileSystem.DeleteKeepsTree | CLI/src/main/java/org/example/CommandLineInterpreter.java:53 | deleting a file or an empty directory leaves no entry without its directory |
| FileSystem.CreateThenDelete | CLI/src/main/java/org/example/CommandLineInterpreter.java:44-53 | a newly created entry is empty, and deleting it gives back the filesystem as it was |
| FileSystem.RelocateMoves | CLI/src/main/java/org/example/CommandLineInterpreter.java:82 | after a move the source is gone, the target holds what the source held, and every entry outside both subtrees is untouched |
| FileSystem.RelocatedEntry | CLI/src/main/java/org/example/CommandLineInterpreter.java:82 | every entry below a moved directory reappears at the same place below the target, with its kind |
| FileSystem.RenameKeepsTree | CLI/src/main/java/org/example/CommandLineInterpreter.java:82 | a permitted `renameTo` moves a whole subtree into a directory, so the filesystem stays a tree |
| Operations.CdTarget | CLI/src/main/java/org/example/CommandLineInterpreter.java:20-22 | the target of `cd` is the segments of the path when it is absolute, and the current directory followed by those segments otherwise |
| Operations.ChangeDirectory | CLI/src/main/java/org/example/CommandLineInterpreter.java:18-26 | `cd` moves to the resolved target (absolute as given, relative under the current directory) exactly when it is a directory, and otherwise stays |
| Operations.CdDotStays | CLI/src/main/java/org/example/CommandLineInterpreter.java:163 | `cd` with no argument (`cd .`) stays at the same directory |
| Operations.CdToPrintedPath | CLI/src/test/java/org/example/CommandLineInterpreterTest.java:23-27 | `cd` to the absolute path of an existing directory goes exactly there, from anywhere |
| Operations.CdThroughMissing | CLI/src/main/java/org/example/CommandLineInterpreter.java:21-24 | `cd nosuch/..` with a missing `nosuch` does not move the shell, because the host cannot walk through `nosuch` |
| Operations.CreateEach | CLI/src/main/java/org/example/CommandLineInterpreter.java:41-47 | `mkdir`/`touch` over the names left to right never lose an entry |
| Operations.CreateEachOnlyAdds | CLI/src/main/java/org/example/CommandLineInterpreter.java:41-47 | `mkdir`/`touch` keep every existing entry unchanged; each new entry has the requested kind and is the path of one of the names |
| Operations.CreateEachCreates | CLI/src/main/java/org/example/CommandLineInterpreter.java:41-47 | every name whose place is inside a directory ends up with an entry, whatever the other names do |
| Operations.CreateEachAppend | CLI/src/main/java/org/example/CommandLineInterpreter.java:42 | `mkdir a b` is `mkdir a` followed by `mkdir b`: each name is handled on its own |
| Operations.CreateEachKeepsTree | CLI/src/main/java/org/example/CommandLineInterpreter.java:41-47 | `mkdir`/`touch` keep the filesystem a tree |
| Operations.Clashes | CLI/src/main/java/org/example/CommandLineInterpreter.java:45 | there are no more reports than names, and each report names one of the names given (`ClashesAppend`, `ClashesAtTurn` and `ClashesOnlyAtTurn` say which) |
| Operations.ClashesExactly | CLI/src/main/java/org/example/CommandLineInterpreter.java:44-45 | every name whose entry exists beforehand is reported as already existing, and every reported name exists afterwards |
| Operations.ClashesAppend | CLI/src/main/java/org/example/CommandLineInterpreter.java:43-46 | names are handled in order: one more name adds itself to the report exactly when its entry exists after the names before it were handled |
| Operations.ClashesAtTurn | CLI/src/main/java/org/example/CommandLineInterpreter.java:44-45 | a name whose entry exists at its turn is reported, so the second `a` of `mkdir a a` is reported |
| Operations.ClashesOnlyAtTurn | CLI/src/main/java/org/example/CommandLineInterpreter.java:44-45 | every reported name is one of the names whose entry exists at its turn |
| Operations.RemoveDirectory | CLI/src/main/java/org/example/CommandLineInterpreter.java:49-60 | `rmdir` removes at most the target, and only an empty directory the host can delete (`Delete` refuses the root and a path ending in "." or ".."); a missing target, a file or a non-empty directory changes nothing |
| Operations.RemoveFile | CLI/src/main/java/org/example/CommandLineInterpreter.java:92-96 | `rm` removes exactly the target when it is a file and changes nothing otherwise (a directory or a missing name) |
| Operations.MkdirThenRmdir | CLI/src/test/java/org/example/CommandLineInterpreterTest.java:43-47 | `mkdir d` then `rmdir d`, for any `d` that does not exist yet, gives back the original filesystem |
| Operations.TouchThenRm | CLI/src/test/java/org/example/CommandLineInterpreterTest.java:64-68 | `touch f` then `rm f`, for any `f` that does not exist yet, gives back the original filesystem |
| Operations.RemoveDirectoryKeepsTree | CLI/src/main/java/org/example/CommandLineInterpreter.java:49-60 | `rmdir` keeps the filesystem a tree |
| Operations.RemoveFileKeepsTree | CLI/src/main/java/org/example/CommandLineInterpreter.java:92-96 | `rm` keeps the filesystem a tree |
| Operations.MoveTarget | CLI/src/main/java/org/example/CommandLineInterpreter.java:76-81 | the target of `mv` is `destination/name-of-source` when the destination is a directory, and the destination otherwise |
| Operations.Move | CLI/src/main/java/org/example/CommandLineInterpreter.java:74-89 | `mv` with a missing source, or a rename the host refuses, changes nothing |
| Operations.MoveRenames | CLI/src/main/java/org/example/CommandLineInterpreter.java:82 | a move the host carries out is the rename of the source to the computed target |
| Operations.MoveMovesEntry | CLI/src/main/java/org/example/CommandLineInterpreter.java:78-85 | after a successful move the source is gone, the target holds the source's entry, and every entry outside both subtrees is untouched |
| Operations.MoveKeepsTree | CLI/src/main/java/org/example/CommandLineInterpreter.java:74-89 | `mv` keeps the filesystem a tree |
| Operations.TouchThenMv | CLI/src/test/java/org/example/CommandLineInterpreterTest.java:56-61 | `touch a` then `mv a b` with fresh names leaves `b` a file and `a` gone |
| Operations.Listed | CLI/src/main/java/org/example/CommandLineInterpreter.java:29-34 | `ls` lists exactly the entries of the current directory, without the hidden ones unless `-a` is given, and nothing when the current directory is not a directory |
| Ordering.Less | CLI/src/main/java/org/example/CommandLineInterpreter.java:35 | `compareTo` never puts a string before itself and puts a proper prefix before the longer string |
| Ordering.LessAtFirstDifference | CLI/src/main/java/org/example/CommandLineInterpreter.java:35 | `compareTo` decides at the first position where two strings differ, by the smaller character there, whatever their lengths |
| Ordering.LessIrreflexive | CLI/src/main/java/org/example/CommandLineInterpreter.java:35 | `compareTo` never puts a string before itself |
| Ordering.LessTransitive | CLI/src/main/java/org/example/CommandLineInterpreter.java:35 | `compareTo` order is transitive |
| Ordering.LessTotal | CLI/src/main/java/org/example/CommandLineInterpreter.java:35 | of two different strings one comes first |
| Ordering.Listing | CLI/src/main/java/org/example/CommandLineInterpreter.java:35-36 | the array `ls` returns is the sorted listing of its entries, ascending or, with `-r`, descending |
| Ordering.Insert | CLI/src/main/java/org/example/CommandLineInterpreter.java:35 | inserting a new name into a sorted sequence keeps it sorted and adds exactly that name |
| Ordering.ListingExists | CLI/src/main/java/org/example/CommandLineInterpreter.java:35 | every set of names has a sorted listing |
| Ordering.ListingUnique | CLI/src/main/java/org/example/CommandLineInterpreter.java:35 | a set of names has only one sorted listing |
| Ordering.ListingLength | CLI/src/main/java/org/example/CommandLineInterpreter.java:28-37 | a listing names each entry exactly once |
| Ordering.ReverseOfListing | CLI/src/main/java/org/example/CommandLineInterpreter.java:35 | an ascending listing read backwards is the descending listing |
| Ordering.DescendingIsReversedAscending | CLI/src/main/java/org/example/CommandLineInterpreter.java:35 | `ls -r` prints exactly the names of `ls`, in reverse order |
| Dispatch.Parse | CLI/src/main/java/org/example/CommandLineInterpreter.java:148-209 | a line is routed as unknown exactly when its command word is none of the eleven known ones, and ends the loop exactly when the word is `exit` |
| Dispatch.Route | CLI/src/main/java/org/example/CommandLineInterpreter.java:158-209 | given the command word, the unknown case is taken exactly for a word outside the known ones, and `exit` only for `exit` |
| Dispatch.CommandName | CLI/src/main/java/org/example/CommandLineInterpreter.java:150-151 | the command is the first whitespace-separated token of the trimmed line: a non-empty prefix without separators, followed by a separator or the end |
| Dispatch.RedirectTarget | CLI/src/main/java/org/example/CommandLineInterpreter.java:193 | a redirect target is trimmed and contains no '>'; a line without '>' has none |
| Dispatch.RedirectTargetOfLine | CLI/src/main/java/org/example/CommandLineInterpreter.java:193 | in `cat … > name` and `cat … >> name`, with any spaces after the operator, the target is exactly `name` |
| Dispatch.RouteCat | CLI/src/main/java/org/example/CommandLineInterpreter.java:191-201 | a `cat` line goes to a write (or, when the split finds no target, to the invalid-input error) exactly when it contains ">", then with the split's target and appending exactly when it contains ">>"; to the pipe exactly when it has "\|" but no ">"; otherwise to reading the token after `cat`, or to the missing-name error |
| Dispatch.CdWithoutArgument | CLI/src/main/java/org/example/CommandLineInterpreter.java:162-163 | `cd` alone is routed as `cd .` |
| Dispatch.MvNeedsTwoNames | CLI/src/main/java/org/example/CommandLineInterpreter.java:184-187 | `mv` is routed to a move exactly when the line has three tokens, and to the usage error otherwise |
| Dispatch.RmdirWithoutNameIsError | CLI/src/main/java/org/example/CommandLineInterpreter.java:174-180 | `rmdir` alone is routed to its error |
| Dispatch.NamesReachOperation | CLI/src/main/java/org/example/CommandLineInterpreter.java:171-183 | the names after `mkdir`/`touch` reach the operation unchanged and in order |
| Dispatch.ParseOfWords | CLI/src/main/java/org/example/CommandLineInterpreter.java:148-151 | a line of printable words separated by runs of whitespace, with blanks around it, is routed on its first word with exactly those words as its tokens |
| Dispatch.MvLine | CLI/src/main/java/org/example/CommandLineInterpreter.java:184-185 | `mv a b`, with any runs of whitespace between the words, is routed to moving `a` to `b` |
| Interpreter.Reports | CLI/src/main/java/org/example/CommandLineInterpreter.java:45 | one "Error: Directory/File <name> already exists" line per clashing name, in the order of the names |
| Interpreter.Effect | CLI/src/main/java/org/example/CommandLineInterpreter.java:158-210 | only `mkdir`, `touch`, `rmdir`, `rm`, `mv` and a `cat` write change the filesystem, and `mkdir`, `touch` and a `cat` write never lose an entry |
| Interpreter.NextDirectory | CLI/src/main/java/org/example/CommandLineInterpreter.java:18-26 | only `cd` moves the shell, and only to a directory |
| Interpreter.Output | CLI/src/main/java/org/example/CommandLineInterpreter.java:14-112 | `pwd`, `ls` and `exit` print one line; `cd`, `rmdir`, `rm`, `mv` and `cat` of a file at most one error line; `mkdir`/`touch` at most one line per name |
| Interpreter.ListingLineSplits | CLI/src/main/java/org/example/CommandLineInterpreter.java:165-169 | the line `ls` prints, split at its line feeds, is exactly the sorted listing, when no name holds a separator |
| Interpreter.EffectKeepsTree | CLI/src/main/java/org/example/CommandLineInterpreter.java:158-210 | no command can leave the filesystem in a state that is not a tree |
| Interpreter.SilentIffRemoved | CLI/src/main/java/org/example/CommandLineInterpreter.java:49-60 | for a path not ending in "." or ".." and not the root, `rm` and `rmdir` print nothing exactly when the entry existed and is gone afterwards |
| Interpreter.RmdirDotIsSilent | CLI/src/main/java/org/example/CommandLineInterpreter.java:49-58 | `rmdir .` in an empty current directory prints nothing and removes nothing |
| Interpreter.SilentIffMoved | CLI/src/main/java/org/example/CommandLineInterpreter.java:74-89 | for a move not onto the source itself, `mv` prints nothing exactly when the source existed and has left its place |
| Interpreter.ReportedErrorChangesNothing | CLI/src/main/java/org/example/CommandLineInterpreter.java:18-96 | when `cd`, `rmdir`, `rm` or `mv` prints an error, neither the filesystem nor the current directory changes |
| Interpreter.Shell.constructor | CLI/src/main/java/org/example/CommandLineInterpreter.java:10-12 | the interpreter starts in the home directory with no previous directory |
| Interpreter.Shell.Pwd | CLI/src/main/java/org/example/CommandLineInterpreter.java:14-16 | `pwd` prints an absolute path that `cd` would read back as the current directory |
| Interpreter.Shell.Cd | CLI/src/main/java/org/example/CommandLineInterpreter.java:18-26 | `cd` always records the old directory as previous, moves as `ChangeDirectory` says, prints "Error: Not a directory" exactly when the resolved target is not a directory, and never touches the filesystem |
| Interpreter.Shell.Ls | CLI/src/main/java/org/example/CommandLineInterpreter.java:28-37 | the names returned are exactly the (visible, or all with `-a`) entries of the current directory, each once, sorted ascending or, with `-r`, descending |
| Interpreter.Shell.CreateAll | CLI/src/main/java/org/example/CommandLineInterpreter.java:42-46 | the loop over names creates the missing entries one after the other and reports the present ones, in order |
| Interpreter.Shell.Mkdir | CLI/src/main/java/org/example/CommandLineInterpreter.java:41-47 | `mkdir` changes the filesystem as `CreateEach` says and prints one report per clashing name |
| Interpreter.Shell.Touch | CLI/src/main/java/org/example/CommandLineInterpreter.java:62-72 | `touch` changes the filesystem as `CreateEach` says and prints one report per clashing name |
| Interpreter.Shell.Rmdir | CLI/src/main/java/org/example/CommandLineInterpreter.java:49-60 | `rmdir` changes the filesystem as `RemoveDirectory` says and prints the "does not exist" / "not empty" errors in those cases |
| Interpreter.Shell.Mv | CLI/src/main/java/org/example/CommandLineInterpreter.java:74-89 | `mv` changes the filesystem as `Move` says and prints "Source file does not exist" or "Could not move file." in those cases |
| Interpreter.Shell.Rm | CLI/src/main/java/org/example/CommandLineInterpreter.java:92-96 | `rm` changes the filesystem as `RemoveFile` says and prints "File does not exist" unless the target is a file |
| Interpreter.Shell.Cat | CLI/src/main/java/org/example/CommandLineInterpreter.java:98-108 | `cat` reports a missing file or a directory and changes nothing |
| Interpreter.Shell.WriteToFile | CLI/src/main/java/org/example/CommandLineInterpreter.java:110-112 | opening the target creates it when missing; the prompt is printed exactly when it can be opened for writing |
| Interpreter.Shell.PrintListing | CLI/src/main/java/org/example/CommandLineInterpreter.java:165-170 | `ls` prints the unique sorted listing as one line, names joined with line feeds |
| Interpreter.Shell.Execute | CLI/src/main/java/org/example/CommandLineInterpreter.java:158-210 | one routed command changes the state and prints as `Effect`, `NextDirectory` and `Output` say; only `cd` touches the directory fields, so an unknown command or `rmdir` without a name leaves them unchanged; only `exit` ends the loop |
| Interpreter.Shell.ExecuteOnHost | CLI/src/main/java/org/example/CommandLineInterpreter.java:171-194 | the commands that change the filesystem never change the directory fields |
| Interpreter.Shell.Step | CLI/src/main/java/org/example/CommandLineInterpreter.java:146-214 | one iteration of the loop: the line is routed by `Parse` and carried out; it ends the loop exactly when the command word is `exit`, and records the previous directory exactly for `cd` |

## Left out

- Console input and output: the `Scanner` loop, the prompt, the welcome line and
  `help`'s fixed text. `help` and `exit` are modelled only as the lines they print.
- Interpreter.Shell.Cat: the lines of an existing file are not modelled; the model
  has no file contents. Only the error for a missing file is printed.
- Interpreter.Shell.WriteToFile: the stdin loop that writes lines until `exit`, and
  the truncate/append difference. Without contents, the `append` flag changes nothing.
- Interpreter.Shell.Mv: whether the host carries out a permitted `renameTo` is the
  parameter `hostSays`. Its failure cases beyond the ones the model names lie
  outside the code.
- Interpreter.Shell.Ls: a directory that cannot be listed for reasons other than
  not being a directory (I/O errors, permissions) is not modelled. A current
  directory that is not a directory lists nothing, as `listFiles` returning null does.
- Interpreter.Shell.constructor: `System.getProperty("user.home")` is the
  parameter `home`. The host filesystem is the parameter `disk`.
- `printStackTrace` output on standard error for `IOException`s is not modelled.
  Such a call prints nothing on standard output and changes nothing.
- The `catch (Exception)` at the end of `main` is modelled only for the routing
  failures it actually catches, as `Command.InvalidInput`.
- Symbolic links and permissions are not modelled: the host walks a path
  through stored directories only. Hidden means a name starting with '.', as on Unix.
- Ordering.Less: `compareTo` compares UTF-16 code units. The model compares
  Dafny characters (Unicode scalar values). The two orders differ only for
  characters outside the Basic Multilingual Plane.
- The pipe branch of `cat` does nothing in the source. It is routed as
  `Command.CatPipe` and prints nothing.
