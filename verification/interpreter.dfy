/**
 * The interpreter object: the host filesystem it works on, its current
 * directory and the directory it was in before the last `cd`. Each command
 * method changes that state in place and returns the lines it prints; each
 * is proved to follow the functions of `Operations`. `Execute` carries out
 * one routed command and `Step` one input line, as the body of the loop in
 * `main` does.
 */
module Interpreter {
  import opened Text
  import opened Paths
  import opened FileSystem
  import opened Ordering
  import opened Operations
  import opened Dispatch

  // ---------------------------------------------------------------------
  // What the interpreter prints

  const NotADirectory := "Error: Not a directory"
  const DirectoryNotEmpty := "Error: Directory is not empty"
  const DirectoryMissing := "Error: Directory does not exist"
  const CouldNotMove := "Error: Could not move file."
  const SourceMissing := "Error: Source file does not exist"
  const FileMissing := "Error: File does not exist"
  const DirectoryNameMissing := "Error: Directory name not specified."
  const MvUsage := "Error: Source and destination not specified."
  const CatUsage := "Error: File name not specified for cat command."
  const ContentPrompt := "Enter the content you want to write :"
  const Exiting := "Exiting..."
  const UnknownCommand := "Error: Unknown command."
  const InvalidInputReport := "Error: Invalid input"

  const HelpText: seq<string> := [
    "Available commands:",
    "pwd - Print current directory",
    "cd <path> - Change directory",
    "ls [-a] [-r] - List files",
    "mkdir <dir> - Make directories",
    "rmdir <dir> - Remove a directory",
    "touch <file> - Create files",
    "mv <source> <destination> - Move/rename files",
    "rm <file> - Remove a file",
    "cat <file> - Print file contents",
    "help - Display help message",
    "exit - Exit the CLI"
  ]

  /** The report `mkdir` (for a directory) or `touch` (for a file) prints
      for a name that already exists. */
  function AlreadyExists(kind: Kind, name: string): string {
    (if kind == Directory then "Error: Directory " else "Error: File ") + name + " already exists"
  }

  /** One report per clashing name, in order. */
  function Reports(kind: Kind, names: seq<string>): (r: seq<string>)
    ensures |r| == |names|
    ensures forall i :: 0 <= i < |names| ==> r[i] == AlreadyExists(kind, names[i])
  {
    if names == [] then []
    else Reports(kind, names[..|names| - 1]) + [AlreadyExists(kind, names[|names| - 1])]
  }

  lemma ReportsSnoc(kind: Kind, names: seq<string>, name: string)
    ensures Reports(kind, names + [name]) == Reports(kind, names) + [AlreadyExists(kind, name)]
  {
    assert (names + [name])[..|names|] == names;
  }

  /** One more turn of the loop of `mkdir` / `touch`: the name is created if
      absent and reported otherwise. */
  lemma CreateAllStep(fs0: Fs, fs: Fs, cur: Path, names: seq<string>, kind: Kind, i: nat, out: seq<string>)
    requires i < |names|
    requires fs == CreateEach(fs0, cur, names[..i], kind)
    requires out == Reports(kind, Clashes(fs0, cur, names[..i], kind))
    ensures !Exists(fs, Resolve(cur, names[i])) ==>
              && CreateEach(fs0, cur, names[..i + 1], kind) == Create(fs, Resolve(cur, names[i]), kind)
              && Reports(kind, Clashes(fs0, cur, names[..i + 1], kind)) == out
    ensures Exists(fs, Resolve(cur, names[i])) ==>
              && CreateEach(fs0, cur, names[..i + 1], kind) == fs
              && Reports(kind, Clashes(fs0, cur, names[..i + 1], kind)) == out + [AlreadyExists(kind, names[i])]
  {
    CreateEachSnoc(fs0, cur, names, kind, i);
    var t := Resolve(cur, names[i]);
    var clashes := Clashes(fs0, cur, names[..i], kind);
    if Exists(fs, t) {
      assert Clashes(fs0, cur, names[..i + 1], kind) == clashes + [names[i]];
      ReportsSnoc(kind, clashes, names[i]);
    } else {
      assert Clashes(fs0, cur, names[..i + 1], kind) == clashes + [];
      assert clashes + [] == clashes;
    }
  }

  /** `new FileWriter(file, append)` opens: the path names an existing file,
      or a new file can be created there. */
  predicate Writable(fs: Fs, t: Path) {
    (IsFile(fs, t) && !Dotted(t)) || CanCreate(fs, t)
  }

  // ---------------------------------------------------------------------
  // One command, as functions of the state before it

  /** The host filesystem after `cmd`: only the commands that reach the host
      change it, and writing with `cat` never loses an entry. */
  function Effect(fs: Fs, cur: Path, cmd: Command, hostSays: bool): (r: Fs)
    ensures !ChangesHost(cmd) ==> r == fs
    ensures cmd.Mkdir? || cmd.Touch? || cmd.CatWrite? ==> fs.Keys <= r.Keys
  {
    match cmd
    case Mkdir(names) => CreateEach(fs, cur, names, Directory)
    case Touch(names) => CreateEach(fs, cur, names, File)
    case Rmdir(name) => RemoveDirectory(fs, cur, name)
    case Rm(name) => RemoveFile(fs, cur, name)
    case Mv(source, destination) => Move(fs, cur, source, destination, hostSays)
    case CatWrite(target, _) => Create(fs, Resolve(cur, target), File)
    case _ => fs
  }

  /** The commands that can change the host filesystem. */
  predicate ChangesHost(cmd: Command) {
    cmd.Mkdir? || cmd.Touch? || cmd.Rmdir? || cmd.Rm? || cmd.Mv? || cmd.CatWrite?
  }

  /** The current directory after `cmd`: only `cd` moves it, and only to a
      directory. */
  function NextDirectory(fs: Fs, cur: Path, cmd: Command): (d: Path)
    ensures !cmd.Cd? ==> d == cur
    ensures d == cur || (cmd.Cd? && IsDir(fs, d))
  {
    if cmd.Cd? then ChangeDirectory(fs, cur, cmd.path) else cur
  }

  /** The lines `cmd` prints (a listing is printed as one line joined with
      line feeds, as `String.join("\n", files)` is). */
  ghost function Output(fs: Fs, cur: Path, cmd: Command, hostSays: bool): (r: seq<string>)
    ensures cmd.Pwd? || cmd.Ls? || cmd.Exit? ==> |r| == 1
    ensures cmd.Mkdir? ==> |r| <= |cmd.dirNames|
    ensures cmd.Touch? ==> |r| <= |cmd.fileNames|
    ensures cmd.Cd? || cmd.Rmdir? || cmd.Rm? || cmd.Mv? || cmd.Cat? ==> |r| <= 1
  {
    match cmd
    case Pwd => [Render(cur)]
    case Cd(path) => if IsDir(fs, CdTarget(cur, path)) then [] else [NotADirectory]
    case Ls(showHidden, reverseOrder) => [Join(Listing(Listed(fs, cur, showHidden), reverseOrder), "\n")]
    case Mkdir(names) => Reports(Directory, Clashes(fs, cur, names, Directory))
    case Rmdir(name) =>
      if !IsDir(fs, Resolve(cur, name)) then [DirectoryMissing]
      else if Children(fs, Canon(Resolve(cur, name))) != {} then [DirectoryNotEmpty]
      else []
    case RmdirWithoutName => [DirectoryNameMissing]
    case Touch(names) => Reports(File, Clashes(fs, cur, names, File))
    case Mv(source, destination) =>
      if !Exists(fs, Resolve(cur, source)) then [SourceMissing]
      else if Renamed(fs, cur, source, destination, hostSays) then []
      else [CouldNotMove]
    case MvWithoutNames => [MvUsage]
    case Rm(name) => if IsFile(fs, Resolve(cur, name)) then [] else [FileMissing]
    case Cat(name) => if IsFile(fs, Resolve(cur, name)) then [] else [FileMissing]
    case CatWithoutName => [CatUsage]
    case CatWrite(target, _) => if Writable(fs, Resolve(cur, target)) then [ContentPrompt] else []
    case CatPipe => []
    case Help => HelpText
    case Exit => [Exiting]
    case Unknown => [UnknownCommand]
    case InvalidInput => [InvalidInputReport]
  }

  // ---------------------------------------------------------------------
  // Properties of one command

  /** The line `ls` prints holds every listed name, in listing order: split
      at its line feeds it gives back the listing (names with a separator
      inside would split further). */
  lemma ListingLineSplits(fs: Fs, cur: Path, showHidden: bool, reverseOrder: bool)
    requires Tree(fs)
    requires forall n :: n in Listed(fs, cur, showHidden) ==> NoSpace(n)
    ensures Words(Output(fs, cur, Command.Ls(showHidden, reverseOrder), false)[0])
         == Listing(Listed(fs, cur, showHidden), reverseOrder)
  {
    var entries := Listed(fs, cur, showHidden);
    ChildrenNonEmpty(fs, Canon(cur));
    ListingSplits(entries, reverseOrder);
    assert Output(fs, cur, Command.Ls(showHidden, reverseOrder), false)
        == [Join(Listing(entries, reverseOrder), "\n")];
  }

  lemma ListingSplits(entries: set<string>, reverse: bool)
    requires forall n :: n in entries ==> n != [] && NoSpace(n)
    ensures Words(Join(Listing(entries, reverse), "\n")) == Listing(entries, reverse)
  {
    var names := Listing(entries, reverse);
    assert forall i :: 0 <= i < |names| ==> names[i] in entries;
    assert "\n" == ['\n'];
    WordsOfJoin(names, '\n');
  }

  /** Every command leaves the host filesystem a tree. */
  lemma EffectKeepsTree(fs: Fs, cur: Path, cmd: Command, hostSays: bool)
    requires Tree(fs) && WellFormed(cur)
    ensures Tree(Effect(fs, cur, cmd, hostSays))
  {
    match cmd
    case Mkdir(names) => CreateEachKeepsTree(fs, cur, names, Directory);
    case Touch(names) => CreateEachKeepsTree(fs, cur, names, File);
    case Rmdir(name) => RemoveDirectoryKeepsTree(fs, cur, name);
    case Rm(name) => RemoveFileKeepsTree(fs, cur, name);
    case Mv(source, destination) => MoveKeepsTree(fs, cur, source, destination, hostSays);
    case CatWrite(target, _) => CreateKeepsTree(fs, Resolve(cur, target), File);
    case _ =>
  }

  /** `rm` and `rmdir` print nothing exactly when they removed the entry
      (for a path the host can delete at all: not the root, not ending in
      "." or ".."). */
  lemma SilentIffRemoved(fs: Fs, cur: Path, cmd: Command, hostSays: bool)
    requires cmd.Rm? || cmd.Rmdir?
    requires var t := Resolve(cur, if cmd.Rm? then cmd.fileName else cmd.dirName);
      !Dotted(t) && Canon(t) != []
    ensures var t := Resolve(cur, if cmd.Rm? then cmd.fileName else cmd.dirName);
      Output(fs, cur, cmd, hostSays) == [] <==> Exists(fs, t) && !Exists(Effect(fs, cur, cmd, hostSays), t)
  {
  }

  /** `rmdir .` in an empty current directory passes both checks of `rmdir`
      and prints nothing, but the host refuses to delete a path ending in
      ".", so nothing is removed. */
  lemma RmdirDotIsSilent(fs: Fs, cur: Path)
    requires Tree(fs) && Canonical(cur) && DirAt(fs, cur) && Children(fs, cur) == {}
    ensures Output(fs, cur, Command.Rmdir("."), false) == []
    ensures Effect(fs, cur, Command.Rmdir("."), false) == fs
  {
    DotOfStoredDirectory(fs, cur);
    assert Children(fs, Canon(Resolve(cur, "."))) == {};
  }

  /** `mv` prints nothing exactly when the source has left its place (for a
      move that is not onto the source itself). */
  lemma SilentIffMoved(fs: Fs, cur: Path, source: string, destination: string, hostSays: bool)
    requires Canon(Resolve(cur, source)) != Canon(MoveTarget(fs, cur, source, destination))
    ensures var cmd := Command.Mv(source, destination);
      Output(fs, cur, cmd, hostSays) == []
      <==> Exists(fs, Resolve(cur, source)) && !Exists(Effect(fs, cur, cmd, hostSays), Resolve(cur, source))
  {
    var cmd := Command.Mv(source, destination);
    var src := Resolve(cur, source);
    var r := Move(fs, cur, source, destination, hostSays);
    var out := Output(fs, cur, cmd, hostSays);
    assert Effect(fs, cur, cmd, hostSays) == r;
    if !Exists(fs, src) {
      assert out == [SourceMissing];
    } else if Renamed(fs, cur, source, destination, hostSays) {
      assert out == [];
      assert !Exists(r, src) by {
        MoveMovesEntry(fs, cur, source, destination, hostSays);
      }
    } else {
      assert out == [CouldNotMove];
      assert r == fs;
    }
  }

  /** `cd`, `rmdir`, `rm` and `mv` either do their work silently or report
      an error and change nothing: neither the filesystem nor the current
      directory. */
  lemma ReportedErrorChangesNothing(fs: Fs, cur: Path, cmd: Command, hostSays: bool)
    requires cmd.Cd? || cmd.Rmdir? || cmd.Rm? || cmd.Mv?
    requires Output(fs, cur, cmd, hostSays) != []
    ensures Effect(fs, cur, cmd, hostSays) == fs
    ensures NextDirectory(fs, cur, cmd) == cur
  {
  }

  // ---------------------------------------------------------------------
  // The interpreter object

  class Shell {
    var fs: Fs
    var currentDirectory: Path
    var previousDirectory: Option<Path>

    ghost predicate Valid()
      reads this
    {
      && Tree(fs)
      && WellFormed(currentDirectory)
      && (previousDirectory.Some? ==> WellFormed(previousDirectory.value))
    }

    /** The interpreter starts in the user's home directory. */
    constructor(home: string, disk: Fs)
      requires Tree(disk)
      ensures Valid()
      ensures fs == disk && currentDirectory == Segments(home) && previousDirectory == None
    {
      fs := disk;
      currentDirectory := Segments(home);
      previousDirectory := None;
    }

    /** `getAbsolutePath` of the current directory; `cd` of it comes back
        to the same names. */
    function Pwd(): (s: string)
      reads this
      requires WellFormed(currentDirectory)
      ensures IsAbsolute(s) && Segments(s) == currentDirectory
    {
      SegmentsOfRender(currentDirectory);
      Render(currentDirectory)
    }

    method Cd(path: string) returns (out: seq<string>)
      requires Valid()
      modifies this
      ensures Valid()
      ensures fs == old(fs)
      ensures currentDirectory == ChangeDirectory(fs, old(currentDirectory), path)
      ensures previousDirectory == Some(old(currentDirectory))
      ensures out == Output(fs, old(currentDirectory), Command.Cd(path), false)
    {
      previousDirectory := Some(currentDirectory);
      var newDir := Segments(path);
      if if IsAbsolute(path) then IsDir(fs, newDir) else IsDir(fs, Resolve(currentDirectory, path)) {
        currentDirectory := if IsAbsolute(path) then newDir else Resolve(currentDirectory, path);
        out := [];
      } else {
        out := [NotADirectory];
      }
    }

    /** The names in the current directory, hidden ones only if asked for,
        sorted ascending or descending. */
    method Ls(showHidden: bool, reverseOrder: bool) returns (names: seq<Name>)
      ensures IsListing(names, Listed(fs, currentDirectory, showHidden), reverseOrder)
    {
      if !IsDir(fs, currentDirectory) {
        return [];
      }
      var files := Children(fs, Canon(currentDirectory));
      var fileNames: seq<Name> := [];
      var rest := files;
      while rest != {}
        invariant rest <= files
        invariant forall n :: n in fileNames ==> n in files && n !in rest && (showHidden || !Hidden(n))
        invariant forall n :: n in files && n !in rest && (showHidden || !Hidden(n)) ==> n in fileNames
        invariant forall i, j :: 0 <= i < j < |fileNames| ==> fileNames[i] != fileNames[j]
        decreases rest
      {
        var file :| file in rest;
        rest := rest - {file};
        if showHidden || !Hidden(file) {
          fileNames := fileNames + [file];
        }
      }
      names := [];
      for i := 0 to |fileNames|
        invariant Sorted(names, reverseOrder)
        invariant forall n :: n in names <==> n in fileNames[..i]
      {
        var file := fileNames[i];
        assert fileNames[..i + 1] == fileNames[..i] + [file];
        var sorted := Insert(names, file, reverseOrder);
        forall n ensures n in sorted <==> n in names || n == file {
          assert n in sorted <==> n in multiset(sorted);
          assert n in names <==> n in multiset(names);
        }
        names := sorted;
      }
      assert fileNames[..|fileNames|] == fileNames;
    }

    /** The loop `mkdir` and `touch` share: each name in turn, created if
        absent, reported if present. */
    method CreateAll(names: seq<string>, kind: Kind) returns (out: seq<string>)
      requires Valid()
      modifies this
      ensures Valid()
      ensures fs == CreateEach(old(fs), currentDirectory, names, kind)
      ensures out == Reports(kind, Clashes(old(fs), currentDirectory, names, kind))
      ensures currentDirectory == old(currentDirectory) && previousDirectory == old(previousDirectory)
    {
      var disk := fs;
      var cur := currentDirectory;
      out := [];
      assert names[..0] == [];
      for i := 0 to |names|
        invariant unchanged(this)
        invariant Tree(disk)
        invariant disk == CreateEach(fs, cur, names[..i], kind)
        invariant out == Reports(kind, Clashes(fs, cur, names[..i], kind))
      {
        var target := Resolve(cur, names[i]);
        CreateAllStep(fs, disk, cur, names, kind, i, out);
        CreateKeepsTree(disk, target, kind);
        if !Exists(disk, target) {
          disk := Create(disk, target, kind);
        } else {
          out := out + [AlreadyExists(kind, names[i])];
        }
      }
      assert names[..|names|] == names;
      fs := disk;
    }

    method Mkdir(dirNames: seq<string>) returns (out: seq<string>)
      requires Valid()
      modifies this
      ensures Valid()
      ensures fs == Effect(old(fs), currentDirectory, Command.Mkdir(dirNames), false)
      ensures out == Output(old(fs), currentDirectory, Command.Mkdir(dirNames), false)
      ensures currentDirectory == old(currentDirectory) && previousDirectory == old(previousDirectory)
    {
      out := CreateAll(dirNames, Directory);
    }

    method Touch(fileNames: seq<string>) returns (out: seq<string>)
      requires Valid()
      modifies this
      ensures Valid()
      ensures fs == Effect(old(fs), currentDirectory, Command.Touch(fileNames), false)
      ensures out == Output(old(fs), currentDirectory, Command.Touch(fileNames), false)
      ensures currentDirectory == old(currentDirectory) && previousDirectory == old(previousDirectory)
    {
      out := CreateAll(fileNames, File);
    }

    method Rmdir(dirName: string) returns (out: seq<string>)
      requires Valid()
      modifies this
      ensures Valid()
      ensures fs == Effect(old(fs), currentDirectory, Command.Rmdir(dirName), false)
      ensures out == Output(old(fs), currentDirectory, Command.Rmdir(dirName), false)
      ensures currentDirectory == old(currentDirectory) && previousDirectory == old(previousDirectory)
    {
      var disk, cur := fs, currentDirectory;
      var dir := Resolve(cur, dirName);
      if Exists(disk, dir) && IsDir(disk, dir) {
        if Children(disk, Canon(dir)) == {} {
          DeleteKeepsTree(disk, dir);
          disk := Delete(disk, dir);
          out := [];
        } else {
          out := [DirectoryNotEmpty];
        }
      } else {
        out := [DirectoryMissing];
      }
      assert disk == Effect(fs, cur, Command.Rmdir(dirName), false);
      assert out == Output(fs, cur, Command.Rmdir(dirName), false);
      fs := disk;
    }

    method Mv(source: string, destination: string, hostSays: bool) returns (out: seq<string>)
      requires Valid()
      modifies this
      ensures Valid()
      ensures fs == Effect(old(fs), currentDirectory, Command.Mv(source, destination), hostSays)
      ensures out == Output(old(fs), currentDirectory, Command.Mv(source, destination), hostSays)
      ensures currentDirectory == old(currentDirectory) && previousDirectory == old(previousDirectory)
    {
      var disk, cur := fs, currentDirectory;
      var srcFile := Resolve(cur, source);
      var destFile := Resolve(cur, destination);
      if Exists(disk, srcFile) {
        if IsDir(disk, destFile) {
          destFile := destFile + BaseName(srcFile);
        }
        assert destFile == MoveTarget(disk, cur, source, destination);
        var success := hostSays && CanRename(disk, srcFile, destFile);
        if success {
          var moved := Rename(disk, srcFile, destFile);
          assert moved == Effect(disk, cur, Command.Mv(source, destination), hostSays) by {
            MoveRenames(disk, cur, source, destination, hostSays);
          }
          assert Tree(moved) by {
            MoveKeepsTree(disk, cur, source, destination, hostSays);
          }
          fs := moved;
          out := [];
        } else {
          out := [CouldNotMove];
        }
        assert out == Output(disk, cur, Command.Mv(source, destination), hostSays);
      } else {
        out := [SourceMissing];
      }
    }

    method Rm(fileName: string) returns (out: seq<string>)
      requires Valid()
      modifies this
      ensures Valid()
      ensures fs == Effect(old(fs), currentDirectory, Command.Rm(fileName), false)
      ensures out == Output(old(fs), currentDirectory, Command.Rm(fileName), false)
      ensures currentDirectory == old(currentDirectory) && previousDirectory == old(previousDirectory)
    {
      var disk, cur := fs, currentDirectory;
      var file := Resolve(cur, fileName);
      if Exists(disk, file) && IsFile(disk, file) {
        DeleteKeepsTree(disk, file);
        disk := Delete(disk, file);
        out := [];
      } else {
        out := [FileMissing];
      }
      assert disk == Effect(fs, cur, Command.Rm(fileName), false);
      assert out == Output(fs, cur, Command.Rm(fileName), false);
      fs := disk;
    }

    /** `cat name`: only the report for a missing file; the lines of an
        existing file are its contents, which are not part of this model. */
    method Cat(fileName: string) returns (out: seq<string>)
      ensures out == Output(fs, currentDirectory, Command.Cat(fileName), false)
    {
      var file := Resolve(currentDirectory, fileName);
      if Exists(fs, file) && IsFile(fs, file) {
        out := [];
      } else {
        out := [FileMissing];
      }
    }

    /** Opening the file `cat > name` / `cat >> name` writes to: a missing
        file is created; the prompt is printed once the file is open. */
    method WriteToFile(fileName: string, append: bool) returns (out: seq<string>)
      requires Valid()
      modifies this
      ensures Valid()
      ensures fs == Effect(old(fs), currentDirectory, Command.CatWrite(fileName, append), false)
      ensures out == Output(old(fs), currentDirectory, Command.CatWrite(fileName, append), false)
      ensures currentDirectory == old(currentDirectory) && previousDirectory == old(previousDirectory)
    {
      var file := Resolve(currentDirectory, fileName);
      var cmd := Command.CatWrite(fileName, append);
      var disk := Create(fs, file, File);
      CreateKeepsTree(fs, file, File);
      assert disk == Effect(fs, currentDirectory, cmd, false);
      out := if Writable(fs, file) then [ContentPrompt] else [];
      assert out == Output(fs, currentDirectory, cmd, false);
      fs := disk;
    }

    /** `ls` as `main` runs it: the listing printed as one line, the names
        joined with line feeds. */
    method PrintListing(showHidden: bool, reverseOrder: bool) returns (out: seq<string>)
      ensures out == Output(fs, currentDirectory, Command.Ls(showHidden, reverseOrder), false)
    {
      var files := Ls(showHidden, reverseOrder);
      ListingUnique(files, Listing(Listed(fs, currentDirectory, showHidden), reverseOrder),
                    Listed(fs, currentDirectory, showHidden), reverseOrder);
      out := [Join(files, "\n")];
    }

    /** One routed command; `exit` is true for `exit`, which ends the loop. */
    method Execute(cmd: Command, hostSays: bool) returns (out: seq<string>, exit: bool)
      requires Valid()
      modifies this
      ensures Valid()
      ensures exit <==> cmd.Exit?
      ensures fs == Effect(old(fs), old(currentDirectory), cmd, hostSays)
      ensures currentDirectory == NextDirectory(old(fs), old(currentDirectory), cmd)
      ensures previousDirectory == if cmd.Cd? then Some(old(currentDirectory)) else old(previousDirectory)
      ensures out == Output(old(fs), old(currentDirectory), cmd, hostSays)
    {
      exit := false;
      if ChangesHost(cmd) {
        out := ExecuteOnHost(cmd, hostSays);
      } else {
        match cmd
        case Pwd =>
          out := [Pwd()];
        case Cd(path) =>
          out := Cd(path);
        case Ls(showHidden, reverseOrder) =>
          out := PrintListing(showHidden, reverseOrder);
        case RmdirWithoutName =>
          out := [DirectoryNameMissing];
        case MvWithoutNames =>
          out := [MvUsage];
        case Cat(fileName) =>
          out := Cat(fileName);
        case CatWithoutName =>
          out := [CatUsage];
        case CatPipe =>
          out := [];
        case Help =>
          out := HelpText;
        case Exit =>
          out := [Exiting];
          exit := true;
        case Unknown =>
          out := [UnknownCommand];
        case InvalidInput =>
          out := [InvalidInputReport];
      }
    }

    /** The commands that change the host filesystem; none of them moves
        the current directory. */
    method ExecuteOnHost(cmd: Command, hostSays: bool) returns (out: seq<string>)
      requires Valid() && ChangesHost(cmd)
      modifies this
      ensures Valid()
      ensures fs == Effect(old(fs), currentDirectory, cmd, hostSays)
      ensures out == Output(old(fs), currentDirectory, cmd, hostSays)
      ensures currentDirectory == old(currentDirectory) && previousDirectory == old(previousDirectory)
    {
      match cmd
      case Mkdir(dirNames) =>
        out := Mkdir(dirNames);
      case Touch(fileNames) =>
        out := Touch(fileNames);
      case Rmdir(dirName) =>
        out := Rmdir(dirName);
      case Rm(fileName) =>
        out := Rm(fileName);
      case Mv(source, destination) =>
        out := Mv(source, destination, hostSays);
      case CatWrite(target, append) =>
        out := WriteToFile(target, append);
    }

    /** One turn of the loop in `main`: read the line, route it, carry it
        out. */
    method Step(line: string, hostSays: bool) returns (out: seq<string>, exit: bool)
      requires Valid()
      modifies this
      ensures Valid()
      ensures exit <==> CommandName(line) == "exit"
      ensures fs == Effect(old(fs), old(currentDirectory), Parse(line), hostSays)
      ensures currentDirectory == NextDirectory(old(fs), old(currentDirectory), Parse(line))
      ensures previousDirectory == if Parse(line).Cd? then Some(old(currentDirectory)) else old(previousDirectory)
      ensures out == Output(old(fs), old(currentDirectory), Parse(line), hostSays)
    {
      out, exit := Execute(Parse(line), hostSays);
    }
  }
}
