/** The name index: for each filename, the list of roots it was found under,
    one element per file found (not per distinct root). */
module NameIndex {
  import opened Snapshot
  import opened Multimap

  /** The entries the name scan keeps: the final segment is not hidden, and
      the entry is a file, or a link when links are followed. */
  predicate Qualifies(e: Entry, followSymlinks: bool)
  {
    !IsHidden(e.path.name) && (e.isFile || (followSymlinks && e.isSymlink))
  }

  /** The (name, root) pairs appended while scanning `es` under root `d`, in scan order. */
  function HitsIn(d: Dir, es: seq<Entry>, followSymlinks: bool): seq<(string, Dir)>
  {
    if es == [] then []
    else
      var e := es[|es| - 1];
      HitsIn(d, es[..|es| - 1], followSymlinks)
        + (if Qualifies(e, followSymlinks) then [(e.path.name, d)] else [])
  }

  /** The (name, root) pairs appended while scanning `roots` in order; a root
      that is not a directory is skipped. */
  function Hits(roots: seq<Root>, followSymlinks: bool): seq<(string, Dir)>
  {
    if roots == [] then []
    else
      var r := roots[|roots| - 1];
      Hits(roots[..|roots| - 1], followSymlinks)
        + (if r.isDir then HitsIn(r.path, r.entries, followSymlinks) else [])
  }

  /** The list the index holds for `name`: the root of each qualifying file with that name. */
  function Occurrences(roots: seq<Root>, followSymlinks: bool, name: string): seq<Dir>
  {
    Select(Hits(roots, followSymlinks), name)
  }

  lemma HitsInSnoc(d: Dir, es: seq<Entry>, j: int, followSymlinks: bool)
    requires 0 <= j < |es|
    ensures HitsIn(d, es[..j + 1], followSymlinks)
      == HitsIn(d, es[..j], followSymlinks) + (if Qualifies(es[j], followSymlinks) then [(es[j].path.name, d)] else [])
  {
    assert es[..j + 1][..j] == es[..j];
  }

  lemma HitsSnoc(roots: seq<Root>, i: int, followSymlinks: bool)
    requires 0 <= i < |roots|
    ensures Hits(roots[..i + 1], followSymlinks)
      == Hits(roots[..i], followSymlinks) + (if roots[i].isDir then HitsIn(roots[i].path, roots[i].entries, followSymlinks) else [])
  {
    assert roots[..i + 1][..i] == roots[..i];
  }

  /** The inner loop over one root's entries: every qualifying entry appends
      (name, root) to the index. */
  method IndexEntries(index: map<string, seq<Dir>>, d: Dir, es: seq<Entry>, followSymlinks: bool, ghost done: seq<(string, Dir)>)
    returns (index': map<string, seq<Dir>>)
    requires index == Group(done)
    ensures index' == Group(done + HitsIn(d, es, followSymlinks))
  {
    index' := index;
    assert es[..0] == [];
    assert done + HitsIn(d, es[..0], followSymlinks) == done;
    for j := 0 to |es|
      invariant index' == Group(done + HitsIn(d, es[..j], followSymlinks))
    {
      HitsInSnoc(d, es, j, followSymlinks);
      var e := es[j];
      ghost var seen := done + HitsIn(d, es[..j], followSymlinks);
      if IsHidden(e.path.name) {
        assert done + HitsIn(d, es[..j + 1], followSymlinks) == seen;
        continue;
      }
      if e.isFile || (followSymlinks && e.isSymlink) {
        GroupSnoc(seen, e.path.name, d);
        index' := Append(index', e.path.name, d);
        assert done + HitsIn(d, es[..j + 1], followSymlinks) == seen + [(e.path.name, d)];
      } else {
        assert done + HitsIn(d, es[..j + 1], followSymlinks) == seen;
      }
    }
    assert es[..|es|] == es;
  }

  /** `get_files_by_name`: a name is a key exactly when some qualifying file
      has it, and its list holds the root of each such file, in scan order. */
  method GetFilesByName(roots: seq<Root>, followSymlinks: bool) returns (index: map<string, seq<Dir>>)
    ensures forall n :: n in index <==> Occurrences(roots, followSymlinks, n) != []
    ensures forall n :: n in index ==> index[n] == Occurrences(roots, followSymlinks, n)
  {
    index := map[];
    for i := 0 to |roots|
      invariant index == Group(Hits(roots[..i], followSymlinks))
    {
      HitsSnoc(roots, i, followSymlinks);
      var r := roots[i];
      if !r.isDir {
        assert Hits(roots[..i + 1], followSymlinks) == Hits(roots[..i], followSymlinks);
        continue;
      }
      index := IndexEntries(index, r.path, r.entries, followSymlinks, Hits(roots[..i], followSymlinks));
    }
    assert roots[..|roots|] == roots;
    GroupLookup(Hits(roots, followSymlinks));
  }

  /** Where the qualifying files named `name` sit: (root index, entry index) pairs. */
  ghost function Positions(roots: seq<Root>, followSymlinks: bool, name: string): set<(int, int)>
  {
    set i, j | 0 <= i < |roots| && roots[i].isDir && 0 <= j < |roots[i].entries|
      && Qualifies(roots[i].entries[j], followSymlinks) && roots[i].entries[j].path.name == name :: (i, j)
  }

  ghost function PositionsIn(i: int, es: seq<Entry>, followSymlinks: bool, name: string): set<(int, int)>
  {
    set j | 0 <= j < |es| && Qualifies(es[j], followSymlinks) && es[j].path.name == name :: (i, j)
  }

  lemma PositionsSnoc(roots: seq<Root>, followSymlinks: bool, name: string)
    requires roots != []
    ensures var k := |roots| - 1;
      Positions(roots, followSymlinks, name) == Positions(roots[..k], followSymlinks, name)
        + (if roots[k].isDir then PositionsIn(k, roots[k].entries, followSymlinks, name) else {})
  {
    var k := |roots| - 1;
    var mine := if roots[k].isDir then PositionsIn(k, roots[k].entries, followSymlinks, name) else {};
    forall p | p in Positions(roots, followSymlinks, name)
      ensures p in Positions(roots[..k], followSymlinks, name) + mine
    {
      if p.0 < k {
        assert roots[..k][p.0] == roots[p.0];
      }
    }
    forall p | p in Positions(roots[..k], followSymlinks, name)
      ensures p in Positions(roots, followSymlinks, name)
    {
      assert roots[..k][p.0] == roots[p.0];
    }
  }

  lemma PositionsInSnoc(i: int, es: seq<Entry>, followSymlinks: bool, name: string)
    requires es != []
    ensures var k := |es| - 1;
      PositionsIn(i, es, followSymlinks, name) == PositionsIn(i, es[..k], followSymlinks, name)
        + (if Qualifies(es[k], followSymlinks) && es[k].path.name == name then {(i, k)} else {})
  {
    var k := |es| - 1;
    forall p | p in PositionsIn(i, es, followSymlinks, name) && p.1 < k
      ensures p in PositionsIn(i, es[..k], followSymlinks, name)
    {
      assert es[..k][p.1] == es[p.1];
    }
    forall p | p in PositionsIn(i, es[..k], followSymlinks, name)
      ensures p in PositionsIn(i, es, followSymlinks, name)
    {
      assert es[..k][p.1] == es[p.1];
    }
  }

  lemma {:induction false} HitsInCount(d: Dir, i: int, es: seq<Entry>, followSymlinks: bool, name: string)
    ensures |Select(HitsIn(d, es, followSymlinks), name)| == |PositionsIn(i, es, followSymlinks, name)|
  {
    if es != [] {
      var k := |es| - 1;
      HitsInCount(d, i, es[..k], followSymlinks, name);
      PositionsInSnoc(i, es, followSymlinks, name);
      var last := if Qualifies(es[k], followSymlinks) then [(es[k].path.name, d)] else [];
      SelectAppend(HitsIn(d, es[..k], followSymlinks), last, name);
      assert last != [] ==> last[..0] == [];
      assert (i, k) !in PositionsIn(i, es[..k], followSymlinks, name);
    }
  }

  /** The length of a name's list is the number of qualifying files with that
      name across all directory roots. */
  lemma {:induction false} OccurrencesCount(roots: seq<Root>, followSymlinks: bool, name: string)
    ensures |Occurrences(roots, followSymlinks, name)| == |Positions(roots, followSymlinks, name)|
  {
    if roots != [] {
      var k := |roots| - 1;
      var r := roots[k];
      OccurrencesCount(roots[..k], followSymlinks, name);
      PositionsSnoc(roots, followSymlinks, name);
      var mine := if r.isDir then HitsIn(r.path, r.entries, followSymlinks) else [];
      SelectAppend(Hits(roots[..k], followSymlinks), mine, name);
      if r.isDir {
        HitsInCount(r.path, k, r.entries, followSymlinks, name);
        assert Positions(roots[..k], followSymlinks, name) * PositionsIn(k, r.entries, followSymlinks, name) == {};
      } else {
        assert mine == [];
      }
    }
  }

  /** Where a (name, root) pair comes from: a qualifying file with that name in that root. */
  lemma {:induction false} HitsInMembership(d: Dir, es: seq<Entry>, followSymlinks: bool, name: string, x: Dir)
    ensures (name, x) in HitsIn(d, es, followSymlinks) <==>
      x == d && exists j :: 0 <= j < |es| && Qualifies(es[j], followSymlinks) && es[j].path.name == name
  {
    if es != [] {
      var k := |es| - 1;
      HitsInMembership(d, es[..k], followSymlinks, name, x);
      if exists j :: 0 <= j < |es| && Qualifies(es[j], followSymlinks) && es[j].path.name == name {
        var j :| 0 <= j < |es| && Qualifies(es[j], followSymlinks) && es[j].path.name == name;
        if j < k {
          assert es[..k][j] == es[j];
        }
      }
      if exists j :: 0 <= j < k && Qualifies(es[..k][j], followSymlinks) && es[..k][j].path.name == name {
        var j :| 0 <= j < k && Qualifies(es[..k][j], followSymlinks) && es[..k][j].path.name == name;
        assert es[j] == es[..k][j];
      }
    }
  }

  /** Entry `j` of root `i` is a directory root's qualifying file named `name`. */
  ghost predicate NamedFileAt(roots: seq<Root>, i: int, j: int, followSymlinks: bool, name: string)
  {
    0 <= i < |roots| && roots[i].isDir && 0 <= j < |roots[i].entries|
      && Qualifies(roots[i].entries[j], followSymlinks) && roots[i].entries[j].path.name == name
  }

  lemma NamedFileAtPrefix(roots: seq<Root>, k: int, i: int, j: int, followSymlinks: bool, name: string)
    requires 0 <= k <= |roots|
    ensures NamedFileAt(roots[..k], i, j, followSymlinks, name) <==> i < k && NamedFileAt(roots, i, j, followSymlinks, name)
    ensures 0 <= i < k ==> roots[..k][i] == roots[i]
  {
  }

  lemma {:induction false} HitsMembership(roots: seq<Root>, followSymlinks: bool, name: string, d: Dir)
    ensures (name, d) in Hits(roots, followSymlinks) <==>
      exists i, j :: NamedFileAt(roots, i, j, followSymlinks, name) && roots[i].path == d
  {
    if roots != [] {
      var k := |roots| - 1;
      var r := roots[k];
      HitsMembership(roots[..k], followSymlinks, name, d);
      HitsInMembership(r.path, r.entries, followSymlinks, name, d);
      assert Hits(roots, followSymlinks)
        == Hits(roots[..k], followSymlinks) + (if r.isDir then HitsIn(r.path, r.entries, followSymlinks) else []);
      if exists i, j :: NamedFileAt(roots, i, j, followSymlinks, name) && roots[i].path == d {
        var i, j :| NamedFileAt(roots, i, j, followSymlinks, name) && roots[i].path == d;
        NamedFileAtPrefix(roots, k, i, j, followSymlinks, name);
        if i == k {
          assert (name, d) in HitsIn(r.path, r.entries, followSymlinks);
        }
      }
      if (name, d) in Hits(roots[..k], followSymlinks) {
        var i, j :| NamedFileAt(roots[..k], i, j, followSymlinks, name) && roots[..k][i].path == d;
        NamedFileAtPrefix(roots, k, i, j, followSymlinks, name);
      } else if r.isDir && (name, d) in HitsIn(r.path, r.entries, followSymlinks) {
        var j :| 0 <= j < |r.entries| && Qualifies(r.entries[j], followSymlinks) && r.entries[j].path.name == name;
        assert NamedFileAt(roots, k, j, followSymlinks, name);
      }
    }
  }

  lemma OccurrencesMembership(roots: seq<Root>, followSymlinks: bool, name: string, d: Dir)
    ensures d in Occurrences(roots, followSymlinks, name) <==>
      exists i, j :: NamedFileAt(roots, i, j, followSymlinks, name) && roots[i].path == d
  {
    SelectMembership(Hits(roots, followSymlinks), name, d);
    HitsMembership(roots, followSymlinks, name, d);
  }

  /** A name whose final segment is hidden is never a key of the index. */
  lemma HiddenNeverIndexed(roots: seq<Root>, followSymlinks: bool, name: string)
    requires IsHidden(name)
    ensures Occurrences(roots, followSymlinks, name) == []
  {
    var occ := Occurrences(roots, followSymlinks, name);
    if occ != [] {
      OccurrencesMembership(roots, followSymlinks, name, occ[0]);
    }
  }

  /** Only the final segment is tested: a file inside a hidden subdirectory is
      still indexed under its (visible) name. */
  lemma HiddenFolderContentsIndexed(roots: seq<Root>, followSymlinks: bool, i: int, j: int, k: int)
    requires 0 <= i < |roots| && roots[i].isDir && 0 <= j < |roots[i].entries|
    requires var e := roots[i].entries[j];
      0 <= k < |e.path.parent| && IsHidden(e.path.parent[k]) && !IsHidden(e.path.name) && e.isFile
    ensures roots[i].path in Occurrences(roots, followSymlinks, roots[i].entries[j].path.name)
  {
    assert NamedFileAt(roots, i, j, followSymlinks, roots[i].entries[j].path.name);
    OccurrencesMembership(roots, followSymlinks, roots[i].entries[j].path.name, roots[i].path);
  }

  lemma {:induction false} HitsAppend(a: seq<Root>, b: seq<Root>, followSymlinks: bool)
    ensures Hits(a + b, followSymlinks) == Hits(a, followSymlinks) + Hits(b, followSymlinks)
  {
    if b == [] {
      assert a + b == a;
    } else {
      var k := |b| - 1;
      var tail := if b[k].isDir then HitsIn(b[k].path, b[k].entries, followSymlinks) else [];
      HitsAppend(a, b[..k], followSymlinks);
      assert (a + b)[..|a| + k] == a + b[..k];
      assert Hits(a + b, followSymlinks) == Hits(a + b[..k], followSymlinks) + tail;
      assert Hits(b, followSymlinks) == Hits(b[..k], followSymlinks) + tail;
    }
  }

  /** A root that is not a directory contributes nothing, wherever it stands,
      and the roots after it are still scanned. */
  lemma InvalidRootIgnored(before: seq<Root>, bad: Root, after: seq<Root>, followSymlinks: bool)
    requires !bad.isDir
    ensures forall n :: Occurrences(before + [bad] + after, followSymlinks, n) == Occurrences(before + after, followSymlinks, n)
  {
    HitsAppend(before + [bad], after, followSymlinks);
    HitsAppend(before, [bad], followSymlinks);
    HitsAppend(before, after, followSymlinks);
    assert Hits([bad], followSymlinks) == [] by {
      assert [bad][..0] == [];
    }
    assert Hits(before + [bad] + after, followSymlinks) == Hits(before + after, followSymlinks);
  }
}
