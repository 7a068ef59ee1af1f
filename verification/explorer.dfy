/** The file explorer's pure rules (`internal/ui/explorer.go`): which
    directory entries are listed and in what order, when the up button
    shows, what tapping an item or going up does, how new files are named,
    and the label shown for a file. The file system enters as a
    `FileSystem` snapshot; creating files and folders is left to the
    caller. */
module Explorer {
  import opened Wrappers
  import opened Strings
  import opened Collections
  import opened Paths

  const MarkdownSuffix: string := ".md"

  /** A Markdown file name: its lower-cased name ends in ".md". */
  predicate IsMarkdownName(name: string) {
    HasSuffix(ToLower(name), MarkdownSuffix)
  }

  /** The suffix test ignores case: ".md", ".MD", ".Md" and ".mD" all count. */
  lemma MarkdownNameIgnoresCase(name: string)
    ensures IsMarkdownName(name) <==>
              |name| >= 3 && name[|name| - 3] == '.'
              && name[|name| - 2] in "mM" && name[|name| - 1] in "dD"
  {
  }

  /** An entry the explorer lists: not hidden, and a directory or a
      Markdown file. */
  predicate Listed(e: Entry) {
    !IsHidden(e.name) && (e.isDir || IsMarkdownName(e.name))
  }

  /** `refreshDir`'s filter and order: the listed directories sorted by
      name, then the listed Markdown files sorted by name. */
  function Listing(entries: seq<Entry>): (files: seq<Entry>)
    ensures forall e :: multiset(files)[e] == if Listed(e) then multiset(entries)[e] else 0
    ensures forall e :: e in files <==> e in entries && Listed(e)
    ensures forall i, j :: 0 <= i < j < |files| && files[j].isDir ==> files[i].isDir
    ensures forall i, j :: 0 <= i < j < |files| && files[i].isDir == files[j].isDir ==>
              !Less(files[j].name, files[i].name)
  {
    var dirs := ListedDirs(entries);
    var mds := ListedFiles(entries);
    GroupCounts(entries, dirs, mds);
    GroupsInOrder(dirs, mds);
    CountsGiveMembers(dirs + mds, entries);
    dirs + mds
  }

  /** Directories and Markdown files together are exactly the listed
      entries. */
  lemma GroupCounts(entries: seq<Entry>, dirs: seq<Entry>, mds: seq<Entry>)
    requires dirs == ListedDirs(entries) && mds == ListedFiles(entries)
    ensures forall e :: multiset(dirs + mds)[e] == if Listed(e) then multiset(entries)[e] else 0
  {
  }

  /** Concatenating the sorted directories and the sorted files puts every
      directory first and keeps each group sorted. */
  lemma GroupsInOrder(dirs: seq<Entry>, mds: seq<Entry>)
    requires forall i :: 0 <= i < |dirs| ==> dirs[i].isDir
    requires forall i :: 0 <= i < |mds| ==> !mds[i].isDir
    requires SortedBy(dirs, NameOf) && SortedBy(mds, NameOf)
    ensures var files := dirs + mds;
      forall i, j :: 0 <= i < j < |files| && files[j].isDir ==> files[i].isDir
    ensures var files := dirs + mds;
      forall i, j :: 0 <= i < j < |files| && files[i].isDir == files[j].isDir ==>
        !Less(files[j].name, files[i].name)
  {
  }

  /** Multiplicities determine membership. */
  lemma CountsGiveMembers(files: seq<Entry>, entries: seq<Entry>)
    requires forall e :: multiset(files)[e] == if Listed(e) then multiset(entries)[e] else 0
    ensures forall e :: e in files <==> e in entries && Listed(e)
  {
  }

  /** The directories of a listing, sorted by name. */
  function ListedDirs(entries: seq<Entry>): (dirs: seq<Entry>)
    ensures forall e :: multiset(dirs)[e] == if !IsHidden(e.name) && e.isDir then multiset(entries)[e] else 0
    ensures forall i :: 0 <= i < |dirs| ==> dirs[i].isDir
    ensures SortedBy(dirs, NameOf)
  {
    var dirs := SortBy(Filter(entries, (e: Entry) => !IsHidden(e.name) && e.isDir), NameOf);
    assert forall i :: 0 <= i < |dirs| ==> dirs[i] in multiset(dirs);
    dirs
  }

  /** The Markdown files of a listing, sorted by name. */
  function ListedFiles(entries: seq<Entry>): (mds: seq<Entry>)
    ensures forall e :: multiset(mds)[e] ==
              if !IsHidden(e.name) && !e.isDir && IsMarkdownName(e.name) then multiset(entries)[e] else 0
    ensures forall i :: 0 <= i < |mds| ==> !mds[i].isDir
    ensures SortedBy(mds, NameOf)
  {
    var mds := SortBy(Filter(entries, (e: Entry) => !IsHidden(e.name) && !e.isDir && IsMarkdownName(e.name)), NameOf);
    assert forall i :: 0 <= i < |mds| ==> mds[i] in multiset(mds);
    mds
  }

  /** The explorer's state: the root it started at, the directory shown,
      the entries listed, and whether the up button is visible. */
  datatype FileExplorer = FileExplorer(root: Path, current: Path, files: seq<Entry>, upVisible: bool)

  /** `refreshDir`: re-list the current directory and show the up button
      exactly when it is not the root; a failed read changes nothing. */
  function RefreshDir(e: FileExplorer, fs: FileSystem): (r: FileExplorer)
    ensures r.root == e.root && r.current == e.current
    ensures fs(e.current).None? ==> r == e
    ensures fs(e.current).Some? ==>
              r.files == Listing(fs(e.current).value) && (r.upVisible <==> e.current != e.root)
  {
    match fs(e.current)
    case None => e
    case Some(entries) => e.(files := Listing(entries), upVisible := e.current != e.root)
  }

  /** `NewFileExplorer`: start at the root, with the up button as created
      (visible) until the first refresh hides it. */
  function NewFileExplorer(root: Path, fs: FileSystem): (e: FileExplorer)
    ensures e.root == root && e.current == root
    ensures fs(root).None? ==> e.upVisible && e.files == []
    ensures fs(root).Some? ==> !e.upVisible && e.files == Listing(fs(root).value)
  {
    RefreshDir(FileExplorer(root, root, [], true), fs)
  }

  /** What tapping a list item does: the explorer afterwards, and the file
      handed to the open-file callback, if any. */
  datatype Tapped = Tapped(explorer: FileExplorer, toOpen: Option<Path>)

  /** `onItemTapped`: an index past the list does nothing; a directory
      becomes the current directory and is listed; a file is opened and the
      explorer stays where it is. */
  function OnItemTapped(e: FileExplorer, id: nat, fs: FileSystem): (t: Tapped)
    ensures id >= |e.files| ==> t == Tapped(e, None)
    ensures id < |e.files| && e.files[id].isDir ==>
              t.toOpen == None && t.explorer.current == JoinPath(e.current, e.files[id].name)
              && t.explorer == RefreshDir(e.(current := JoinPath(e.current, e.files[id].name)), fs)
    ensures id < |e.files| && !e.files[id].isDir ==>
              t == Tapped(e, Some(JoinPath(e.current, e.files[id].name)))
  {
    if id >= |e.files| then Tapped(e, None)
    else
      var entry := e.files[id];
      var fullPath := JoinPath(e.current, entry.name);
      if entry.isDir then Tapped(RefreshDir(e.(current := fullPath), fs), None)
      else Tapped(e, Some(fullPath))
  }

  /** `navigateUp`: nothing at the root or at the file-system root,
      otherwise the parent directory becomes current and is listed. */
  function NavigateUp(e: FileExplorer, fs: FileSystem): (r: FileExplorer)
    ensures e.current == e.root ==> r == e
    ensures Dir(e.current) == e.current ==> r == e
    ensures e.current != e.root && Dir(e.current) != e.current ==>
              r == RefreshDir(e.(current := Dir(e.current)), fs)
  {
    if e.current == e.root then e
    else
      var parent := Dir(e.current);
      if parent == e.current then e
      else RefreshDir(e.(current := parent), fs)
  }

  /** The current directory never leaves the root's subtree. */
  predicate InsideRoot(e: FileExplorer) {
    Within(e.root, e.current)
  }

  /** Every explorer operation keeps the current directory inside the
      root: tapping only descends, and going up stops at the root. */
  lemma NeverLeavesRoot(e: FileExplorer, id: nat, fs: FileSystem)
    requires InsideRoot(e)
    ensures InsideRoot(NewFileExplorer(e.root, fs))
    ensures InsideRoot(RefreshDir(e, fs))
    ensures InsideRoot(OnItemTapped(e, id, fs).explorer)
    ensures InsideRoot(NavigateUp(e, fs))
    ensures NavigateUp(e, fs) != e ==> |NavigateUp(e, fs).current| == |e.current| - 1
  {
    if e.current != e.root {
      assert |e.current| > |e.root|;
      var parent := Dir(e.current);
      assert parent[..|e.root|] == e.current[..|e.root|];
    }
    if id < |e.files| && e.files[id].isDir {
      var p := JoinPath(e.current, e.files[id].name);
      assert p[..|e.root|] == e.current[..|e.root|];
    }
  }

  /** The name a new Markdown file gets: empty names are refused, and
      ".md" is appended unless the name already ends with it. */
  function NewFileName(name: string): (r: Option<string>)
    ensures r.None? <==> name == ""
    ensures r.Some? ==> HasSuffix(r.value, MarkdownSuffix)
    ensures r.Some? && HasSuffix(name, MarkdownSuffix) ==> r.value == name
    ensures r.Some? && !HasSuffix(name, MarkdownSuffix) ==> r.value == name + MarkdownSuffix
  {
    if name == "" then None
    else if HasSuffix(name, MarkdownSuffix) then Some(name)
    else
      var full := name + MarkdownSuffix;
      assert full[|full| - 3..] == MarkdownSuffix;
      Some(full)
  }

  /** Naming is idempotent, and a new file that is not hidden shows up in
      the listing once the directory is re-read. */
  lemma NewFileIsListed(name: string)
    requires name != ""
    ensures NewFileName(NewFileName(name).value) == NewFileName(name)
    ensures !IsHidden(name) ==> Listed(Entry(NewFileName(name).value, false))
  {
  }

  /** The path `showNewFileDialog` creates in the current directory. */
  function NewFilePath(e: FileExplorer, name: string): (r: Option<Path>)
    ensures r.None? <==> name == ""
    ensures r.Some? ==> Dir(r.value) == e.current && r.value == JoinPath(e.current, NewFileName(name).value)
  {
    match NewFileName(name)
    case None => None
    case Some(full) => Some(JoinPath(e.current, full))
  }

  /** The path `showNewFolderDialog` creates: empty names are refused. */
  function NewFolderPath(e: FileExplorer, name: string): (r: Option<Path>)
    ensures r.None? <==> name == ""
    ensures r.Some? ==> Dir(r.value) == e.current && Base(r.value) == name
  {
    if name == "" then None else Some(JoinPath(e.current, name))
  }

  /** How a new-file or new-folder dialog ends: an empty name does
      nothing, a failed create shows its error, otherwise the directory is
      listed again (and a new file is handed to the open-file callback). */
  datatype Created = Ignored | Failed(error: string) | Done(after: Tapped)

  /** `showNewFileDialog`'s callback, with the outcome of `os.Create` and
      the file system afterwards as inputs. */
  function NewFile(e: FileExplorer, name: string, createError: Option<string>, after: FileSystem)
    : (r: Created)
    ensures r.Ignored? <==> name == ""
    ensures name != "" && createError.Some? ==> r == Failed(createError.value)
    ensures r.Done? ==> createError.None? && r.after.explorer == RefreshDir(e, after)
                        && r.after.toOpen == NewFilePath(e, name)
  {
    match NewFilePath(e, name)
    case None => Ignored
    case Some(path) =>
      if createError.Some? then Failed(createError.value)
      else Done(Tapped(RefreshDir(e, after), Some(path)))
  }

  /** `showNewFolderDialog`'s callback, with the outcome of `os.Mkdir` and
      the file system afterwards as inputs; the explorer stays in the
      current directory. */
  function NewFolder(e: FileExplorer, name: string, mkdirError: Option<string>, after: FileSystem)
    : (r: Created)
    ensures r.Ignored? <==> name == ""
    ensures name != "" && mkdirError.Some? ==> r == Failed(mkdirError.value)
    ensures r.Done? ==> mkdirError.None? && r.after == Tapped(RefreshDir(e, after), None)
  {
    match NewFolderPath(e, name)
    case None => Ignored
    case Some(_) =>
      if mkdirError.Some? then Failed(mkdirError.value)
      else Done(Tapped(RefreshDir(e, after), None))
  }

  /** A created Markdown file that the file system then lists is shown in
      the explorer and opened; the current directory does not change. */
  lemma {:induction false} CreatedFileIsShown(e: FileExplorer, name: string, after: FileSystem)
    requires name != "" && !IsHidden(name)
    requires after(e.current).Some?
    requires Entry(NewFileName(name).value, false) in after(e.current).value
    ensures var r := NewFile(e, name, None, after);
      r.Done? && r.after.explorer.current == e.current
      && Entry(NewFileName(name).value, false) in r.after.explorer.files
      && Dir(r.after.toOpen.value) == e.current
  {
    NewFileIsListed(name);
  }

  /** The label of a listed file AS WRITTEN: `strings.TrimRight(name,
      ".md")`, which strips every trailing '.', 'm' or 'd' byte, not the
      ".md" suffix. */
  function FileLabel(name: string): (r: string)
    ensures HasPrefix(name, r)
    ensures |r| == 0 || r[|r| - 1] !in MarkdownSuffix
    ensures forall i :: |r| <= i < |name| ==> name[i] in MarkdownSuffix
  {
    TrimRight(name, MarkdownSuffix)
  }

  /** The label evidently intended: the name without its ".md" suffix. */
  function IntendedFileLabel(name: string): (r: string)
    ensures HasSuffix(name, MarkdownSuffix) ==> r + MarkdownSuffix == name
    ensures !HasSuffix(name, MarkdownSuffix) ==> r == name
  {
    TrimSuffix(name, MarkdownSuffix)
  }

  /** The label of a list item AS WRITTEN: a directory shows its name, a
      file its name through the cut-set trim of `FileLabel`. */
  function ItemLabel(e: Entry): (r: string)
    ensures e.isDir ==> r == e.name
    ensures !e.isDir ==> HasPrefix(e.name, r) && (|r| == 0 || r[|r| - 1] !in MarkdownSuffix)
    ensures !e.isDir ==> forall i :: |r| <= i < |e.name| ==> e.name[i] in MarkdownSuffix
  {
    if e.isDir then e.name else FileLabel(e.name)
  }

  /** The label of a list item as evidently intended: a file shows its
      name without the ".md" suffix. */
  function IntendedItemLabel(e: Entry): (r: string)
    ensures e.isDir ==> r == e.name
    ensures !e.isDir && HasSuffix(e.name, MarkdownSuffix) ==> r + MarkdownSuffix == e.name
    ensures !e.isDir && !HasSuffix(e.name, MarkdownSuffix) ==> r == e.name
  {
    if e.isDir then e.name else IntendedFileLabel(e.name)
  }

  /** The two item labels agree on directories and on files whose stem does
      not end in '.', 'm' or 'd', and differ on every other Markdown file. */
  lemma ItemLabelsAgreeIff(stem: string)
    ensures ItemLabel(Entry(stem + MarkdownSuffix, false)) == IntendedItemLabel(Entry(stem + MarkdownSuffix, false))
            <==> (|stem| == 0 || stem[|stem| - 1] !in MarkdownSuffix)
  {
  }

  /** As written, the label of "command.md" is "comman": the cut-set trim
      eats the stem's final 'd' too. */
  lemma FileLabelOverTrims()
    ensures FileLabel("command.md") == "comman"
    ensures IntendedFileLabel("command.md") == "command"
  {
    assert "command.md"[..9] == "command.m";
    assert "command.m"[..8] == "command.";
    assert "command."[..7] == "command";
    assert "command"[..6] == "comman";
    assert "command.md"[10 - 3..] == MarkdownSuffix;
  }

  /** As written, a file's label is its stem exactly when the stem does not
      itself end in '.', 'm' or 'd'. */
  lemma {:induction false} FileLabelIsStemIff(stem: string)
    ensures FileLabel(stem + MarkdownSuffix) == stem <==>
              (|stem| == 0 || stem[|stem| - 1] !in MarkdownSuffix)
  {
    var name := stem + MarkdownSuffix;
    var r := FileLabel(name);
    assert name[|stem|..] == MarkdownSuffix;
    assert forall i :: |stem| <= i < |name| ==> name[i] in MarkdownSuffix;
    assert r == name[..|r|];
    if |stem| == 0 || stem[|stem| - 1] !in MarkdownSuffix {
      assert |stem| > 0 ==> name[|stem| - 1] !in MarkdownSuffix;
      assert |r| == |stem|;
      assert r == stem;
    } else {
      assert stem[|stem| - 1] in MarkdownSuffix;
      assert r != stem;
    }
  }

  /** The intended label always gives the stem back. */
  lemma IntendedFileLabelIsStem(stem: string)
    ensures IntendedFileLabel(stem + MarkdownSuffix) == stem
  {
  }
}
