/** Name mode: a filename is unique to a root when its index list holds that
    root once and nothing else; each root's unique names are listed sorted. */
module NameResolver {
  import opened Snapshot
  import opened Multimap
  import opened Ordering
  import NameIndex
  import Sets

  /** The names whose index list is exactly `[d]`. */
  function UniqueTo(index: map<string, seq<Dir>>, d: Dir): set<string>
  {
    set n | n in index && index[n] == [d]
  }

  /** The names of `UniqueTo(index, d)` already visited, i.e. not in `todo`. */
  ghost function Visited(index: map<string, seq<Dir>>, todo: set<string>, d: Dir): set<string>
  {
    set n | n in index && n !in todo && index[n] == [d]
  }

  /** `acc` holds, for each root, the visited names unique to it, in some order. */
  ghost predicate Collected(index: map<string, seq<Dir>>, todo: set<string>, acc: map<Dir, seq<string>>)
  {
    && (forall d :: d in acc <==> Visited(index, todo, d) != {})
    && (forall d :: d in acc ==> multiset(acc[d]) == multiset(Visited(index, todo, d)))
  }

  /** Visiting `n` keeps the list of one root `d` equal to its visited unique names. */
  lemma CollectStepAt(index: map<string, seq<Dir>>, todo: set<string>, acc: map<Dir, seq<string>>,
                      acc': map<Dir, seq<string>>, n: string, d: Dir)
    requires n in todo && n in index
    requires acc' == if |index[n]| == 1 then Append(acc, index[n][0], n) else acc
    requires d in acc <==> Visited(index, todo, d) != {}
    requires d in acc ==> multiset(acc[d]) == multiset(Visited(index, todo, d))
    ensures d in acc' <==> Visited(index, todo - {n}, d) != {}
    ensures d in acc' ==> multiset(acc'[d]) == multiset(Visited(index, todo - {n}, d))
  {
    var before := Visited(index, todo, d);
    var after := Visited(index, todo - {n}, d);
    if |index[n]| == 1 && index[n][0] == d {
      assert index[n] == [d];
      assert after == before + {n} && n !in before;
      assert n in after;
    } else {
      assert index[n] != [d];
      assert after == before;
    }
  }

  /** Visiting `n` and appending it under its sole root, if it has one, keeps `acc` collected. */
  lemma CollectStep(index: map<string, seq<Dir>>, todo: set<string>, acc: map<Dir, seq<string>>, n: string)
    requires n in todo && n in index && Collected(index, todo, acc)
    ensures Collected(index, todo - {n}, if |index[n]| == 1 then Append(acc, index[n][0], n) else acc)
  {
    var acc' := if |index[n]| == 1 then Append(acc, index[n][0], n) else acc;
    forall d
      ensures d in acc' <==> Visited(index, todo - {n}, d) != {}
      ensures d in acc' ==> multiset(acc'[d]) == multiset(Visited(index, todo - {n}, d))
    {
      CollectStepAt(index, todo, acc, acc', n, d);
    }
  }

  /** The inversion of the index and the sort of each root's list: a root has
      a list exactly when some name is unique to it, the list is strictly
      ascending, and it holds exactly the names unique to that root. */
  method InvertUnique(index: map<string, seq<Dir>>) returns (unique: map<Dir, seq<string>>)
    ensures forall d :: d in unique <==> UniqueTo(index, d) != {}
    ensures forall d :: d in unique ==> StrictlySorted(unique[d])
    ensures forall d, n :: d in unique ==> (n in unique[d] <==> n in index && index[n] == [d])
    ensures forall d1, d2, n :: d1 in unique && d2 in unique && n in unique[d1] && n in unique[d2] ==> d1 == d2
  {
    var acc: map<Dir, seq<string>> := map[];
    var todo := index.Keys;
    while todo != {}
      invariant todo <= index.Keys
      invariant Collected(index, todo, acc)
      decreases |todo|
    {
      var n :| n in todo;
      CollectStep(index, todo, acc, n);
      todo := todo - {n};
      if |index[n]| == 1 {
        acc := Append(acc, index[n][0], n);
      }
    }
    unique := map d | d in acc :: Sort(acc[d]);
    SortedLists(index, acc, unique);
  }

  /** Sorting each accumulated list of unique names gives strictly ascending
      lists of exactly those names. */
  lemma SortedLists(index: map<string, seq<Dir>>, acc: map<Dir, seq<string>>, unique: map<Dir, seq<string>>)
    requires Collected(index, {}, acc)
    requires unique == map d | d in acc :: Sort(acc[d])
    ensures forall d :: d in unique <==> UniqueTo(index, d) != {}
    ensures forall d :: d in unique ==> StrictlySorted(unique[d])
    ensures forall d, n :: d in unique ==> (n in unique[d] <==> n in index && index[n] == [d])
    ensures forall d1, d2, n :: d1 in unique && d2 in unique && n in unique[d1] && n in unique[d2] ==> d1 == d2
  {
    forall d ensures Visited(index, {}, d) == UniqueTo(index, d) {
    }
    forall d | d in unique
      ensures StrictlySorted(unique[d]) && forall n :: n in unique[d] <==> n in UniqueTo(index, d)
    {
      SortedSetIsStrict(unique[d], UniqueTo(index, d));
    }
  }

  /** The unique list of `d`, empty when `d` has none. */
  function ListFor(unique: map<Dir, seq<string>>, d: Dir): seq<string>
  {
    if d in unique then unique[d] else []
  }

  /** `print_unique_by_name` without the printing: the name index is built
      with links not followed, and a name is listed under `d` exactly when
      the only qualifying file with that name lies under root `d`. */
  method UniqueByName(roots: seq<Root>) returns (unique: map<Dir, seq<string>>)
    ensures forall d :: d in unique ==> StrictlySorted(unique[d])
    ensures forall d, n :: n in ListFor(unique, d) <==> NameIndex.Occurrences(roots, false, n) == [d]
  {
    var index := NameIndex.GetFilesByName(roots, false);
    unique := InvertUnique(index);
    forall d, n ensures n in ListFor(unique, d) <==> NameIndex.Occurrences(roots, false, n) == [d] {
      if NameIndex.Occurrences(roots, false, n) == [d] {
        assert n in UniqueTo(index, d);
      }
    }
  }

  lemma UniqueIfSingleFile(roots: seq<Root>, followSymlinks: bool, name: string, d: Dir)
    requires |NameIndex.Positions(roots, followSymlinks, name)| == 1
    requires forall p :: p in NameIndex.Positions(roots, followSymlinks, name) ==> roots[p.0].path == d
    ensures NameIndex.Occurrences(roots, followSymlinks, name) == [d]
  {
    var occ := NameIndex.Occurrences(roots, followSymlinks, name);
    var ps := NameIndex.Positions(roots, followSymlinks, name);
    NameIndex.OccurrencesCount(roots, followSymlinks, name);
    assert |occ| == 1;
    NameIndex.OccurrencesMembership(roots, followSymlinks, name, occ[0]);
    var i, j :| NameIndex.NamedFileAt(roots, i, j, followSymlinks, name) && roots[i].path == occ[0];
    assert (i, j) in ps;
  }

  lemma SingleFileIfUnique(roots: seq<Root>, followSymlinks: bool, name: string, d: Dir)
    requires NameIndex.Occurrences(roots, followSymlinks, name) == [d]
    ensures |NameIndex.Positions(roots, followSymlinks, name)| == 1
    ensures forall p :: p in NameIndex.Positions(roots, followSymlinks, name) ==> roots[p.0].path == d
  {
    var ps := NameIndex.Positions(roots, followSymlinks, name);
    NameIndex.OccurrencesCount(roots, followSymlinks, name);
    NameIndex.OccurrencesMembership(roots, followSymlinks, name, d);
    var p :| p in ps;
    assert ps == {p} by {
      forall q | q in ps ensures q == p {
        if q != p {
          Sets.TwoMembers(ps, p, q);
        }
      }
    }
    assert NameIndex.NamedFileAt(roots, p.0, p.1, followSymlinks, name);
    var i, j :| NameIndex.NamedFileAt(roots, i, j, followSymlinks, name) && roots[i].path == d;
    assert (i, j) in ps;
  }

  /** A name is unique to `d` exactly when one qualifying file in all the
      directory roots has it, and that file lies under a root whose path is `d`. */
  lemma UniqueIffSingleFile(roots: seq<Root>, followSymlinks: bool, name: string, d: Dir)
    ensures NameIndex.Occurrences(roots, followSymlinks, name) == [d] <==>
      |NameIndex.Positions(roots, followSymlinks, name)| == 1 &&
      forall p :: p in NameIndex.Positions(roots, followSymlinks, name) ==> roots[p.0].path == d
  {
    if NameIndex.Occurrences(roots, followSymlinks, name) == [d] {
      SingleFileIfUnique(roots, followSymlinks, name, d);
    }
    if |NameIndex.Positions(roots, followSymlinks, name)| == 1 &&
      forall p :: p in NameIndex.Positions(roots, followSymlinks, name) ==> roots[p.0].path == d
    {
      UniqueIfSingleFile(roots, followSymlinks, name, d);
    }
  }

  /** Two qualifying files with the same name make it unique to no root,
      whether they lie in two roots or in two folders of the same root. */
  lemma SameNameTwiceNotUnique(roots: seq<Root>, followSymlinks: bool, name: string, i1: int, j1: int, i2: int, j2: int)
    requires NameIndex.NamedFileAt(roots, i1, j1, followSymlinks, name)
    requires NameIndex.NamedFileAt(roots, i2, j2, followSymlinks, name)
    requires (i1, j1) != (i2, j2)
    ensures forall d :: NameIndex.Occurrences(roots, followSymlinks, name) != [d]
  {
    var ps := NameIndex.Positions(roots, followSymlinks, name);
    assert (i1, j1) in ps && (i2, j2) in ps;
    Sets.TwoMembers(ps, (i1, j1), (i2, j2));
    NameIndex.OccurrencesCount(roots, followSymlinks, name);
  }

  /** The list with repeats removed, first occurrences kept. */
  function Distinct(s: seq<Dir>): (r: seq<Dir>)
    ensures forall x :: x in r <==> x in s
    ensures forall i, j :: 0 <= i < j < |r| ==> r[i] != r[j]
  {
    if s == [] then []
    else
      var rest := Distinct(s[..|s| - 1]);
      var x := s[|s| - 1];
      assert s == s[..|s| - 1] + [x];
      if x in rest then rest else rest + [x]
  }

  /** The distinct roots of a list are exactly `[d]` when the list is non-empty and holds only `d`. */
  lemma DistinctSingleton(s: seq<Dir>, d: Dir)
    ensures Distinct(s) == [d] <==> s != [] && forall x :: x in s ==> x == d
  {
    var r := Distinct(s);
    if s != [] && forall x :: x in s ==> x == d {
      assert s[0] in r;
      forall k | 0 <= k < |r| ensures r[k] == d {
        assert r[k] in r;
      }
      if |r| > 1 {
        assert r[0] != r[1];
      }
    }
  }

  /** The inversion over distinct roots: a name is listed under `d` when its
      list is non-empty and holds only `d`. */
  method InvertUniqueAcrossRoots(index: map<string, seq<Dir>>) returns (unique: map<Dir, seq<string>>)
    ensures forall d :: d in unique ==> StrictlySorted(unique[d])
    ensures forall d, n :: n in ListFor(unique, d) <==>
      n in index && index[n] != [] && forall x :: x in index[n] ==> x == d
  {
    var distinct := map n | n in index :: Distinct(index[n]);
    unique := InvertUnique(distinct);
    forall d, n
      ensures n in ListFor(unique, d) <==> n in index && index[n] != [] && forall x :: x in index[n] ==> x == d
    {
      if n in index {
        assert distinct[n] == Distinct(index[n]);
        DistinctSingleton(index[n], d);
        if distinct[n] == [d] {
          assert n in UniqueTo(distinct, d);
          assert d in unique;
        }
        assert n in ListFor(unique, d) <==> distinct[n] == [d];
      } else {
        assert n !in distinct;
      }
    }
  }

  /** Name mode as the docstring describes it: a name is unique to `d` when
      every qualifying file with that name lies under root `d`, however many
      such files there are. */
  method UniqueByNameAcrossRoots(roots: seq<Root>) returns (unique: map<Dir, seq<string>>)
    ensures forall d :: d in unique ==> StrictlySorted(unique[d])
    ensures forall d, n :: n in ListFor(unique, d) <==>
      NameIndex.Occurrences(roots, false, n) != [] && forall x :: x in NameIndex.Occurrences(roots, false, n) ==> x == d
  {
    var index := NameIndex.GetFilesByName(roots, false);
    unique := InvertUniqueAcrossRoots(index);
  }

  /** Root `["a"]` holds `x/a.txt` and `y/a.txt`; root `["b"]` is empty. */
  function RepeatedInOneRoot(): seq<Root>
  {
    [ Root(["a"], true, [ Entry(FilePath(["a", "x"], "a.txt"), true, false, Bytes([])),
                          Entry(FilePath(["a", "y"], "a.txt"), true, false, Bytes([])) ]),
      Root(["b"], true, []) ]
  }

  /** `a.txt` lies under root `["a"]` only, yet the code lists it under no
      root, while the corrected definition lists it under `["a"]`. */
  lemma RepeatedInOneRootWitness()
    ensures forall d :: NameIndex.Occurrences(RepeatedInOneRoot(), false, "a.txt") != [d]
    ensures NameIndex.Occurrences(RepeatedInOneRoot(), false, "a.txt") != []
    ensures forall x :: x in NameIndex.Occurrences(RepeatedInOneRoot(), false, "a.txt") ==> x == ["a"]
  {
    var roots := RepeatedInOneRoot();
    var occ := NameIndex.Occurrences(roots, false, "a.txt");
    assert NameIndex.NamedFileAt(roots, 0, 0, false, "a.txt");
    assert NameIndex.NamedFileAt(roots, 0, 1, false, "a.txt");
    SameNameTwiceNotUnique(roots, false, "a.txt", 0, 0, 0, 1);
    NameIndex.OccurrencesMembership(roots, false, "a.txt", ["a"]);
    forall x | x in occ ensures x == ["a"] {
      NameIndex.OccurrencesMembership(roots, false, "a.txt", x);
    }
  }
}
