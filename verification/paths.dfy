/** Directory entries, and file paths as lists of segments below the file-system root, standing in
    for the cleaned absolute paths that `filepath.Join`, `filepath.Dir` and
    `filepath.Base` produce. A segment is a directory-entry name: never
    empty, never `.` or `..`, never containing a separator. */
module Paths {
  import opened Wrappers
  import opened Strings

  type Path = seq<string>

  /** An `os.DirEntry`: a name and whether it is a directory. */
  datatype Entry = Entry(name: string, isDir: bool)

  /** `os.ReadDir` over a snapshot of the file system: the entries of a
      directory, or `None` when it cannot be read. */
  type FileSystem = Path -> Option<seq<Entry>>

  /** The sort key of directory listings. */
  function NameOf(e: Entry): string {
    e.name
  }

  /** Names starting with "." are hidden. */
  predicate IsHidden(name: string) {
    HasPrefix(name, ".")
  }

  /** `filepath.Join(p, name)` for a plain entry name. */
  function JoinPath(p: Path, name: string): (r: Path)
    ensures Within(p, r) && |r| == |p| + 1
    ensures r[|p|] == name
  {
    p + [name]
  }

  /** `filepath.Dir`: the parent directory; the root is its own parent. */
  function Dir(p: Path): (r: Path)
    ensures r == p <==> |p| == 0
    ensures |p| > 0 ==> Within(r, p) && |r| == |p| - 1
  {
    if |p| == 0 then p else p[..|p| - 1]
  }

  /** `filepath.Base`: the last segment; the root's base is the separator.
      Below the root, a path is its parent joined with its base. */
  function Base(p: Path): (r: string)
    ensures |p| == 0 ==> r == "/"
    ensures |p| > 0 ==> JoinPath(Dir(p), r) == p
  {
    if |p| == 0 then "/" else p[|p| - 1]
  }

  /** `p` lies at or below `root`. */
  predicate Within(root: Path, p: Path) {
    |root| <= |p| && p[..|root|] == root
  }
}
