/** Day 7: reading the terminal session, replaying it on the file system,
    and the two answers. */
module DeviceCommands {
  import opened Util
  import opened Text
  import opened FileTree

  /** `Action`: what a `$` line asks for. */
  datatype Action = ListAll | GotoRoot | GoUpOne | GoDownTo(name: string)

  /** `LineResult`: a command, a listed directory, or a listed file. */
  datatype LineResult = Command(action: Action) | ListedDirectory(name: string) | ListedFile(file: File)

  /** `parse_action`: the second word `ls` lists; otherwise the third word
      says where `cd` goes. `None` where the source indexes past the
      words. */
  function ParseAction(s: string): (r: Option<Action>)
    ensures r.Some? ==> |SplitChar(s, ' ')| >= 2
    ensures r.Some? && r.value != ListAll ==> |SplitChar(s, ' ')| >= 3 && SplitChar(s, ' ')[1] != "ls"
    ensures r.Some? && r.value.GoDownTo? ==> r.value.name == SplitChar(s, ' ')[2] && r.value.name != "/" && r.value.name != ".."
  {
    var items := SplitChar(s, ' ');
    if |items| < 2 then None
    else if items[1] == "ls" then Some(ListAll)
    else if |items| < 3 then None
    else if items[2] == "/" then Some(GotoRoot)
    else if items[2] == ".." then Some(GoUpOne)
    else Some(GoDownTo(items[2]))
  }

  /** `parse_line`: `$` starts a command, `dir` lists a directory, and any
      other first word is a file size (a `usize`) followed by the name.
      `None` where the source indexes past the words or the size does not
      parse. */
  function ParseLine(s: string): (r: Option<LineResult>)
    ensures r.Some? && r.value.Command? ==> SplitChar(s, ' ')[0] == "$"
    ensures r.Some? && r.value.ListedDirectory? ==> |SplitChar(s, ' ')| >= 2 && SplitChar(s, ' ')[0] == "dir" && r.value.name == SplitChar(s, ' ')[1]
    ensures r.Some? && r.value.ListedFile? ==> r.value.file.size <= U64_MAX && SplitChar(s, ' ')[0] != "$" && SplitChar(s, ' ')[0] != "dir"
  {
    var items := SplitChar(s, ' ');
    if items[0] == "$" then
      match ParseAction(s)
      case Some(a) => Some(Command(a))
      case None => None
    else if |items| < 2 then None
    else if items[0] == "dir" then Some(ListedDirectory(items[1]))
    else match ParseU64(items[0])
      case Some(size) => Some(ListedFile(NewFile(items[1], size)))
      case None => None
  }

  // ----------------------------------------------------------- rendering

  /** The words of a terminal line. */
  function Words(l: LineResult): seq<string>
  {
    match l
    case Command(ListAll) => ["$", "ls"]
    case Command(GotoRoot) => ["$", "cd", "/"]
    case Command(GoUpOne) => ["$", "cd", ".."]
    case Command(GoDownTo(name)) => ["$", "cd", name]
    case ListedDirectory(name) => ["dir", name]
    case ListedFile(f) => [NatToString(f.size), f.name]
  }

  /** The terminal line itself: the words joined by single spaces. */
  function Render(l: LineResult): string
  {
    Join(Words(l), " ")
  }

  predicate NoSpace(s: string)
  {
    forall j :: 0 <= j < |s| ==> s[j] != ' '
  }

  /** The lines a terminal session can show: names without spaces, a `cd`
      target that is neither `/` nor `..`, and sizes that fit a `usize`. */
  predicate WellFormed(l: LineResult)
  {
    match l
    case Command(GoDownTo(name)) => NoSpace(name) && name != "/" && name != ".."
    case ListedDirectory(name) => NoSpace(name)
    case ListedFile(f) => NoSpace(f.name) && f.size <= U64_MAX
    case Command(_) => true
  }

  /** The words of a well-formed line hold no space, so splitting the
      rendered line gives them back. */
  lemma SplitRender(l: LineResult)
    requires WellFormed(l)
    ensures SplitChar(Render(l), ' ') == Words(l)
  {
    var ws := Words(l);
    forall i, j | 0 <= i < |ws| && 0 <= j < |ws[i]| ensures ws[i][j] != ' ' {
      if l.ListedFile? && i == 0 {
        assert IsDigit(ws[0][j]);
      }
    }
    SplitJoinChar(ws, ' ');
  }

  /** A line whose words are those of `l` reads as `l`. */
  lemma ParseWords(s: string, l: LineResult)
    requires WellFormed(l) && SplitChar(s, ' ') == Words(l)
    ensures ParseLine(s) == Some(l)
  {
    if l.ListedFile? {
      ParseIntToString(l.file.size, 0, U64_MAX);
      assert IntToString(l.file.size) == NatToString(l.file.size);
      assert IsDigit(Words(l)[0][0]);
    }
  }

  /** Every well-formed line reads back as itself. */
  lemma ParseRender(l: LineResult)
    requires WellFormed(l)
    ensures ParseLine(Render(l)) == Some(l)
  {
    SplitRender(l);
    ParseWords(Render(l), l);
  }

  // -------------------------------------------------------------- replay

  /** One step of the replay loop in `main`; `ls` does nothing. */
  function Apply(fs: FileSystem, l: LineResult): (r: FileSystem)
    requires fs.Valid()
    ensures r.Valid()
    ensures l.Command? ==> r.dirs == fs.dirs
    ensures l.Command? && l.action.ListAll? ==> r == fs
  {
    match l
    case Command(ListAll) => fs
    case Command(GotoRoot) => FileTree.GoToRoot(fs)
    case Command(GoUpOne) => FileTree.GoUpOne(fs)
    case Command(GoDownTo(name)) => FileTree.GoDownTo(fs, name)
    case ListedDirectory(name) => AddValid(fs, name, NewFile("", 0)); AddDirectory(fs, name)
    case ListedFile(f) => AddValid(fs, "", f); AddFile(fs, f)
  }

  /** The replay of a whole session, line by line. */
  function Replay(fs: FileSystem, ls: seq<LineResult>): (r: FileSystem)
    requires fs.Valid()
    ensures r.Valid()
  {
    if |ls| == 0 then fs else Apply(Replay(fs, ls[..|ls| - 1]), ls[|ls| - 1])
  }

  /** The total size of the files a session lists, each listing counted. */
  function ListedTotal(ls: seq<LineResult>): nat
  {
    if |ls| == 0 then 0
    else ListedTotal(ls[..|ls| - 1]) + (if ls[|ls| - 1].ListedFile? then ls[|ls| - 1].file.size else 0)
  }

  /** One line adds its file's size, if it lists a file, to the used size. */
  lemma ApplyUsed(fs: FileSystem, l: LineResult)
    requires fs.Valid()
    ensures UsedSize(Apply(fs, l)) == UsedSize(fs) + (if l.ListedFile? then l.file.size else 0)
  {
    match l
    case ListedDirectory(name) => AddDirectoryUsed(fs, name);
    case ListedFile(f) => AddFileUsed(fs, f);
    case Command(_) =>
  }

  /** After a replay the disk holds exactly the files listed: a file listed
      twice is counted twice. */
  lemma {:induction false} ReplayUsed(fs: FileSystem, ls: seq<LineResult>)
    requires fs.Valid()
    ensures UsedSize(Replay(fs, ls)) == UsedSize(fs) + ListedTotal(ls)
    decreases |ls|
  {
    if |ls| > 0 {
      ReplayUsed(fs, ls[..|ls| - 1]);
      ApplyUsed(Replay(fs, ls[..|ls| - 1]), ls[|ls| - 1]);
    }
  }

  // ------------------------------------------------------------- answers

  const DiskSize: nat := 70_000_000
  const NeededSpace: nat := 30_000_000
  const SmallLimit: nat := 100_000

  /** Part two: the smallest directory whose deletion frees enough space.
      Both `usize` subtractions must not underflow: the disk holds at most
      its size, and at least the space that must stay free is missing. */
  function PartTwo(fs: FileSystem): (r: Option<DirectoryInfo>)
    requires fs.Valid()
    ensures r.Some? <==> DiskSize - NeededSpace <= UsedSize(fs) <= DiskSize
    ensures r.Some? ==> DiskSize - UsedSize(fs) + r.value.size >= NeededSpace
    ensures r.Some? ==> exists i :: 0 <= i < |fs.dirs| && r.value == DirectoryInfo(fs.dirs[i].name, DirSize(fs.dirs, i))
    ensures r.Some? ==> forall i :: 0 <= i < |fs.dirs| && DiskSize - UsedSize(fs) + DirSize(fs.dirs, i) >= NeededSpace ==>
      r.value.size <= DirSize(fs.dirs, i)
  {
    var used := UsedSize(fs);
    if used > DiskSize then None
    else
      var unused := DiskSize - used;
      if unused > NeededSpace then None
      else
        var r := FirstBiggerThan(fs, NeededSpace - unused);
        assert r.Some?;
        r
  }

  /** Every line of the session, read; `None` when one does not parse. */
  function ParseAll(lines: seq<string>): (r: Option<seq<LineResult>>)
    ensures r.Some? <==> forall i :: 0 <= i < |lines| ==> ParseLine(lines[i]).Some?
    ensures r.Some? ==> |r.value| == |lines|
    ensures r.Some? ==> forall i :: 0 <= i < |lines| ==> r.value[i] == ParseLine(lines[i]).value
  {
    if forall i :: 0 <= i < |lines| ==> ParseLine(lines[i]).Some? then
      Some(seq(|lines|, i requires 0 <= i < |lines| => ParseLine(lines[i]).value))
    else None
  }

  /** `main`: replay the session from a fresh file system, then answer both
      parts. */
  function Solve(lines: seq<string>): (r: Option<(nat, Option<DirectoryInfo>)>)
    ensures r.Some? <==> ParseAll(lines).Some?
    ensures r.Some? ==> (r.value.1.Some? <==> 40_000_000 <= ListedTotal(ParseAll(lines).value) <= 70_000_000)
  {
    match ParseAll(lines)
    case None => None
    case Some(ls) =>
      var fs := Replay(FileTree.New(), ls);
      ReplayUsed(FileTree.New(), ls);
      Some((PartOne(fs, SmallLimit), PartTwo(fs)))
  }
}
