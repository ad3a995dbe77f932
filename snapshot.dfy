/** The filesystem as the comparison sees it: an in-memory snapshot of every
    root directory named on the command line, with the entries a recursive
    glob of that root yields. Paths are taken to be canonical (already
    resolved), so equal paths name the same file. */
module Snapshot {

  type byte = bv8

  datatype Option<T> = None | Some(value: T)

  /** A directory path, as its list of components. */
  type Dir = seq<string>

  /** A path is its parent directory and its final segment (`path.parent`, `path.name`). */
  datatype FilePath = FilePath(parent: Dir, name: string)

  /** What opening and reading the file to its end gives: its bytes, or an I/O failure. */
  datatype Content = Bytes(data: seq<byte>) | Unreadable

  /** One entry yielded by the recursive glob: files, directories and links alike.
      `isFile` is what `is_file()` returns, so it holds for a link to a regular
      file too; `isSymlink` is what `is_symlink()` returns. */
  datatype Entry = Entry(path: FilePath, isFile: bool, isSymlink: bool, content: Content)

  /** A root as resolved at scan start: whether it is a directory, and the
      entries the recursive glob yields under it when it is one. */
  datatype Root = Root(path: Dir, isDir: bool, entries: seq<Entry>)

  /** A hidden name is one whose first character is a dot. */
  predicate IsHidden(name: string)
  {
    |name| > 0 && name[0] == '.'
  }

  /** The recursive glob of a root: a path that is not a directory yields nothing. */
  function Scan(r: Root): seq<Entry>
  {
    if r.isDir then r.entries else []
  }

  /** A snapshot of a real filesystem: an entry reached twice (through two
      overlapping or repeated roots) is the same entry both times. */
  ghost predicate Consistent(roots: seq<Root>)
  {
    forall r1, r2, e1, e2 ::
      r1 in roots && r2 in roots && e1 in r1.entries && e2 in r2.entries && e1.path == e2.path
      ==> e1 == e2
  }

  /** In a consistent snapshot, two entries at the same path are the same entry. */
  lemma SamePathSameEntry(roots: seq<Root>, i1: int, j1: int, i2: int, j2: int)
    requires Consistent(roots)
    requires 0 <= i1 < |roots| && 0 <= j1 < |roots[i1].entries|
    requires 0 <= i2 < |roots| && 0 <= j2 < |roots[i2].entries|
    requires roots[i1].entries[j1].path == roots[i2].entries[j2].path
    ensures roots[i1].entries[j1] == roots[i2].entries[j2]
  {
    assert roots[i1] in roots && roots[i2] in roots;
    assert roots[i1].entries[j1] in roots[i1].entries && roots[i2].entries[j2] in roots[i2].entries;
  }
}

/** Facts about the size of a finite set, used where the source tests `len(s) > 1` or `len(s) == 1`. */
module Sets {

  lemma TwoMembers<T>(s: set<T>, a: T, b: T)
    requires a in s && b in s && a != b
    ensures |s| > 1
  {
    var rest := s - {a, b};
    assert s == rest + {a, b};
    assert rest * {a, b} == {};
  }

  lemma OnlyMember<T>(s: set<T>, a: T)
    requires a in s
    requires forall b :: b in s ==> b == a
    ensures |s| == 1
  {
    assert s == {a};
  }
}
