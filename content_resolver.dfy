/** Content mode: stage 1 marks every path whose bucket spans two or more
    parent folders; stage 2 re-scans each root and reports a file when its
    path is unmarked and a fresh hash of it finds a bucket confined to one
    parent folder. */
module ContentResolver {
  import opened Snapshot
  import opened Multimap
  import opened Hashing
  import opened Ordering
  import opened ContentIndex
  import Sets

  /** `{path.parent for path, _ in locations}` */
  function Parents(bucket: seq<Location>): set<Dir>
  {
    set l | l in bucket :: l.path.parent
  }

  /** A bucket spans no folder exactly when it is empty, and never more
      folders than it has locations. */
  lemma {:induction false} ParentsBound(bucket: seq<Location>)
    ensures Parents(bucket) == {} <==> bucket == []
    ensures |Parents(bucket)| <= |bucket|
  {
    if bucket != [] {
      var init := bucket[..|bucket| - 1];
      var last := bucket[|bucket| - 1];
      assert bucket == init + [last];
      ParentsBound(init);
      assert Parents(bucket) == Parents(init) + {last.path.parent};
      assert last.path.parent in Parents(bucket);
    }
  }

  /** The file paths of a bucket. */
  function Paths(bucket: seq<Location>): set<FilePath>
  {
    set l | l in bucket :: l.path
  }

  /** `content_map[file_hash]` on the `defaultdict`: a missing digest reads as an empty bucket. */
  function Bucket(index: map<string, seq<Location>>, h: string): seq<Location>
  {
    if h in index then index[h] else []
  }

  /** The `defaultdict` lookup stores an empty bucket under a missing digest.
      Every later lookup, of any digest, reads the same bucket as before. */
  lemma DefaultLookupChangesNoBucket(index: map<string, seq<Location>>, h: string, k: string)
    ensures Bucket(if h in index then index else index[h := []], k) == Bucket(index, k)
  {
  }

  /** A digest the map does not hold reads as a bucket spanning no folder, so
      the double check's `== 1` fails for it. */
  lemma MissingDigestSpansNoFolder(index: map<string, seq<Location>>, h: string)
    requires h !in index
    ensures |Parents(Bucket(index, h))| == 0
  {
    ParentsBound(Bucket(index, h));
  }

  /** The paths of the buckets among `keys` that span more than one parent folder. */
  ghost function MarkedIn(index: map<string, seq<Location>>, keys: set<string>): set<FilePath>
  {
    set h, p | h in keys && h in index && |Parents(index[h])| > 1 && p in Paths(index[h]) :: p
  }

  /** `seen_in_multiple` for a given index. */
  ghost function Duplicated(index: map<string, seq<Location>>): set<FilePath>
  {
    MarkedIn(index, index.Keys)
  }

  /** The content index every caller in the program builds. */
  function ContentMap(roots: seq<Root>, algo: Algorithm): map<string, seq<Location>>
  {
    Group(Hits(roots, DEFAULT_CHUNK_SIZE, algo))
  }

  lemma MarkedInAdd(index: map<string, seq<Location>>, keys: set<string>, h: string)
    requires h in index
    ensures MarkedIn(index, keys + {h})
      == MarkedIn(index, keys) + (if |Parents(index[h])| > 1 then Paths(index[h]) else {})
  {
  }

  /** `for file_path, _ in locations: seen_in_multiple.add(file_path)` */
  method AddPaths(seen: set<FilePath>, locations: seq<Location>) returns (seen': set<FilePath>)
    ensures seen' == seen + Paths(locations)
  {
    seen' := seen;
    for k := 0 to |locations|
      invariant seen' == seen + Paths(locations[..k])
    {
      assert Paths(locations[..k + 1]) == Paths(locations[..k]) + {locations[k].path} by {
        assert locations[..k + 1] == locations[..k] + [locations[k]];
      }
      seen' := seen' + {locations[k].path};
    }
    assert locations[..|locations|] == locations;
  }

  /** Stage 1: a path is marked exactly when some bucket holding it spans more
      than one parent folder. */
  method SeenInMultiple(index: map<string, seq<Location>>) returns (seen: set<FilePath>)
    ensures seen == Duplicated(index)
    ensures forall p :: p in seen <==> exists h :: h in index && |Parents(index[h])| > 1 && p in Paths(index[h])
  {
    seen := {};
    var todo := index.Keys;
    while todo != {}
      invariant todo <= index.Keys
      invariant seen == MarkedIn(index, index.Keys - todo)
      decreases |todo|
    {
      var h :| h in todo;
      ghost var before := index.Keys - todo;
      var locations := index[h];
      var dirs := Parents(locations);
      if |dirs| > 1 {
        seen := AddPaths(seen, locations);
      }
      MarkedInAdd(index, before, h);
      todo := todo - {h};
      assert index.Keys - todo == before + {h};
    }
    assert index.Keys - todo == index.Keys;
  }

  /** The double check of stage 2: a visible file is reported when its
      path was not marked, its fresh hash is truthy, and that hash's bucket
      spans exactly one parent folder. */
  predicate Reported(e: Entry, index: map<string, seq<Location>>, seen: set<FilePath>, algo: Algorithm)
  {
    Qualifies(e) && e.path !in seen && Truthy(HashOf(e, DEFAULT_CHUNK_SIZE, algo))
      && |Parents(Bucket(index, HashOf(e, DEFAULT_CHUNK_SIZE, algo).value))| == 1
  }

  /** A reported file was read, and its fresh digest is whole-file: it is the
      digest of the file's bytes, and a key of the map holding a non-empty bucket. */
  lemma ReportedWasRead(e: Entry, index: map<string, seq<Location>>, seen: set<FilePath>, algo: Algorithm)
    requires Reported(e, index, seen, algo)
    ensures e.content.Bytes? && HashOf(e, DEFAULT_CHUNK_SIZE, algo) == Some(algo(e.content.data))
    ensures HashOf(e, DEFAULT_CHUNK_SIZE, algo).value in index && index[HashOf(e, DEFAULT_CHUNK_SIZE, algo).value] != []
  {
    FileHashIsDigestOfContent(e.content, DEFAULT_CHUNK_SIZE, algo);
    ParentsBound(Bucket(index, HashOf(e, DEFAULT_CHUNK_SIZE, algo).value));
  }

  /** The names of the reported entries of `es`, in scan order. */
  function UniqueNames(es: seq<Entry>, index: map<string, seq<Location>>, seen: set<FilePath>, algo: Algorithm): seq<string>
  {
    if es == [] then []
    else
      var e := es[|es| - 1];
      UniqueNames(es[..|es| - 1], index, seen, algo) + (if Reported(e, index, seen, algo) then [e.path.name] else [])
  }

  /** Stage 2 for one root: the names of its reported files, in scan order; a
      root that is not a directory yields none. */
  method UniqueIn(r: Root, index: map<string, seq<Location>>, seen: set<FilePath>, algo: Algorithm)
    returns (names: seq<string>)
    ensures names == UniqueNames(Scan(r), index, seen, algo)
  {
    names := [];
    var es := Scan(r);
    for j := 0 to |es|
      invariant names == UniqueNames(es[..j], index, seen, algo)
    {
      var e := es[j];
      assert es[..j + 1][..j] == es[..j];
      if IsHidden(e.path.name) || !e.isFile {
        continue;
      }
      if e.path !in seen {
        var fileHash: Option<string>;
        ghost var chunks: seq<seq<byte>>;
        var outcome;
        outcome, chunks := CalculateFileHash(e.content, DEFAULT_CHUNK_SIZE, algo);
        fileHash := outcome.hash;
        if Truthy(fileHash) && |Parents(Bucket(index, fileHash.value))| == 1 {
          names := names + [e.path.name];
        }
      }
    }
    assert es[..|es|] == es;
  }

  /** Stage 2 over every root named, in order: each root's reported names, sorted. */
  method UniqueByContent(roots: seq<Root>, index: map<string, seq<Location>>, seen: set<FilePath>, algo: Algorithm)
    returns (unique: seq<seq<string>>)
    ensures |unique| == |roots|
    ensures forall i :: 0 <= i < |roots| ==>
      Sorted(unique[i]) && multiset(unique[i]) == multiset(UniqueNames(Scan(roots[i]), index, seen, algo))
  {
    unique := [];
    for i := 0 to |roots|
      invariant |unique| == i
      invariant forall k :: 0 <= k < i ==>
        Sorted(unique[k]) && multiset(unique[k]) == multiset(UniqueNames(Scan(roots[k]), index, seen, algo))
    {
      var names := UniqueIn(roots[i], index, seen, algo);
      unique := unique + [Sort(names)];
    }
  }

  /** The content comparison: the index, the marked paths, and each root's
      sorted list of files unique by content. */
  method CompareByContent(roots: seq<Root>, algo: Algorithm)
    returns (index: map<string, seq<Location>>, seen: set<FilePath>, unique: seq<seq<string>>)
    ensures index == ContentMap(roots, algo)
    ensures seen == Duplicated(index)
    ensures |unique| == |roots|
    ensures forall i :: 0 <= i < |roots| ==>
      Sorted(unique[i]) && multiset(unique[i]) == multiset(UniqueNames(Scan(roots[i]), index, seen, algo))
  {
    index := GetFilesByContent(roots, DEFAULT_CHUNK_SIZE, algo);
    GroupLookup(Hits(roots, DEFAULT_CHUNK_SIZE, algo));
    seen := SeenInMultiple(index);
    unique := UniqueByContent(roots, index, seen, algo);
  }

  /** A reported entry of `es` at position `j` carrying `name`. */
  ghost predicate ReportedNameAt(es: seq<Entry>, j: int, index: map<string, seq<Location>>, seen: set<FilePath>, algo: Algorithm, name: string)
  {
    0 <= j < |es| && Reported(es[j], index, seen, algo) && es[j].path.name == name
  }

  lemma UniqueNamesSnoc(es: seq<Entry>, index: map<string, seq<Location>>, seen: set<FilePath>, algo: Algorithm, name: string)
    requires es != []
    ensures var k := |es| - 1;
      name in UniqueNames(es, index, seen, algo) <==>
        name in UniqueNames(es[..k], index, seen, algo) || ReportedNameAt(es, k, index, seen, algo, name)
  {
  }

  lemma {:induction false} UniqueNamesSound(es: seq<Entry>, index: map<string, seq<Location>>, seen: set<FilePath>, algo: Algorithm, name: string)
    requires name in UniqueNames(es, index, seen, algo)
    ensures exists j :: ReportedNameAt(es, j, index, seen, algo, name)
  {
    var k := |es| - 1;
    UniqueNamesSnoc(es, index, seen, algo, name);
    if name in UniqueNames(es[..k], index, seen, algo) {
      UniqueNamesSound(es[..k], index, seen, algo, name);
      var j :| ReportedNameAt(es[..k], j, index, seen, algo, name);
      assert es[..k][j] == es[j];
      assert ReportedNameAt(es, j, index, seen, algo, name);
    } else {
      assert ReportedNameAt(es, k, index, seen, algo, name);
    }
  }

  lemma {:induction false} UniqueNamesComplete(es: seq<Entry>, index: map<string, seq<Location>>, seen: set<FilePath>, algo: Algorithm, name: string, j: int)
    requires ReportedNameAt(es, j, index, seen, algo, name)
    ensures name in UniqueNames(es, index, seen, algo)
  {
    var k := |es| - 1;
    UniqueNamesSnoc(es, index, seen, algo, name);
    if j < k {
      assert es[..k][j] == es[j];
      assert ReportedNameAt(es[..k], j, index, seen, algo, name);
      UniqueNamesComplete(es[..k], index, seen, algo, name, j);
    }
  }

  /** A name is listed for a run of entries exactly when one of them with that name is reported. */
  lemma UniqueNamesMembership(es: seq<Entry>, index: map<string, seq<Location>>, seen: set<FilePath>, algo: Algorithm, name: string)
    ensures name in UniqueNames(es, index, seen, algo) <==>
      exists j :: 0 <= j < |es| && Reported(es[j], index, seen, algo) && es[j].path.name == name
  {
    if name in UniqueNames(es, index, seen, algo) {
      UniqueNamesSound(es, index, seen, algo, name);
    }
    if exists j :: 0 <= j < |es| && Reported(es[j], index, seen, algo) && es[j].path.name == name {
      var j :| 0 <= j < |es| && Reported(es[j], index, seen, algo) && es[j].path.name == name;
      assert ReportedNameAt(es, j, index, seen, algo, name);
      UniqueNamesComplete(es, index, seen, algo, name, j);
    }
  }

  /** The bucket of the content map is the scan's bucket for that digest. */
  lemma BucketOfContentMap(roots: seq<Root>, algo: Algorithm, h: string)
    ensures Bucket(ContentMap(roots, algo), h) == Occurrences(roots, DEFAULT_CHUNK_SIZE, algo, h)
  {
    GroupLookup(Hits(roots, DEFAULT_CHUNK_SIZE, algo));
  }

  /** A hashed file's own location is in its bucket, so its folder is among the bucket's parents. */
  lemma OwnFolderInBucket(roots: seq<Root>, algo: Algorithm, i: int, j: int, h: string)
    requires HashedFileAt(roots, i, j, DEFAULT_CHUNK_SIZE, algo, h)
    ensures h in ContentMap(roots, algo)
    ensures roots[i].entries[j].path in Paths(ContentMap(roots, algo)[h])
    ensures roots[i].entries[j].path.parent in Parents(ContentMap(roots, algo)[h])
  {
    var l := Location(roots[i].entries[j].path, roots[i].path);
    BucketMembership(roots, DEFAULT_CHUNK_SIZE, algo, h, l);
    BucketOfContentMap(roots, algo, h);
    assert l in Bucket(ContentMap(roots, algo), h);
  }

  /** Two files with the same content in different folders are never reported,
      whether they lie in one root or in two. */
  lemma DifferentFoldersNotUnique(roots: seq<Root>, algo: Algorithm, i1: int, j1: int, i2: int, j2: int, h: string)
    requires HashedFileAt(roots, i1, j1, DEFAULT_CHUNK_SIZE, algo, h)
    requires HashedFileAt(roots, i2, j2, DEFAULT_CHUNK_SIZE, algo, h)
    requires roots[i1].entries[j1].path.parent != roots[i2].entries[j2].path.parent
    ensures !Reported(roots[i1].entries[j1], ContentMap(roots, algo), Duplicated(ContentMap(roots, algo)), algo)
    ensures roots[i1].entries[j1].path in Duplicated(ContentMap(roots, algo))
  {
    var cm := ContentMap(roots, algo);
    OwnFolderInBucket(roots, algo, i1, j1, h);
    OwnFolderInBucket(roots, algo, i2, j2, h);
    Sets.TwoMembers(Parents(cm[h]), roots[i1].entries[j1].path.parent, roots[i2].entries[j2].path.parent);
  }

  /** A hashed file whose bucket spans more than one folder is marked by stage 1. */
  lemma MarkedIfSpread(roots: seq<Root>, algo: Algorithm, i: int, j: int, h: string)
    requires HashedFileAt(roots, i, j, DEFAULT_CHUNK_SIZE, algo, h)
    requires |Parents(Bucket(ContentMap(roots, algo), h))| > 1
    ensures roots[i].entries[j].path in Duplicated(ContentMap(roots, algo))
  {
    OwnFolderInBucket(roots, algo, i, j, h);
  }

  /** On a consistent snapshot, a marked path's own bucket spans more than one folder. */
  lemma SpreadIfMarked(roots: seq<Root>, algo: Algorithm, i: int, j: int, h: string)
    requires Consistent(roots)
    requires HashedFileAt(roots, i, j, DEFAULT_CHUNK_SIZE, algo, h)
    requires roots[i].entries[j].path in Duplicated(ContentMap(roots, algo))
    ensures |Parents(Bucket(ContentMap(roots, algo), h))| > 1
  {
    var cm := ContentMap(roots, algo);
    var e := roots[i].entries[j];
    var h2, p :| h2 in cm.Keys && h2 in cm && |Parents(cm[h2])| > 1 && p in Paths(cm[h2]) && p == e.path;
    var l: Location :| l in cm[h2] && l.path == e.path;
    BucketOfContentMap(roots, algo, h2);
    BucketMembership(roots, DEFAULT_CHUNK_SIZE, algo, h2, l);
    var i3, j3 :| HashedFileAt(roots, i3, j3, DEFAULT_CHUNK_SIZE, algo, h2)
      && l == Location(roots[i3].entries[j3].path, roots[i3].path);
    SamePathSameEntry(roots, i, j, i3, j3);
  }

  /** With a consistent snapshot the two stages agree: a hashed file's path is
      marked by stage 1 exactly when the bucket stage 2 re-derives for it spans
      more than one folder. */
  lemma DoubleCheckAgreesWithStageOne(roots: seq<Root>, algo: Algorithm, i: int, j: int, h: string)
    requires Consistent(roots)
    requires HashedFileAt(roots, i, j, DEFAULT_CHUNK_SIZE, algo, h)
    ensures roots[i].entries[j].path in Duplicated(ContentMap(roots, algo))
      <==> |Parents(Bucket(ContentMap(roots, algo), h))| > 1
  {
    if roots[i].entries[j].path in Duplicated(ContentMap(roots, algo)) {
      SpreadIfMarked(roots, algo, i, j, h);
    }
    if |Parents(Bucket(ContentMap(roots, algo), h))| > 1 {
      MarkedIfSpread(roots, algo, i, j, h);
    }
  }

  /** A file is unique by content when it hashed to a non-empty digest and
      every file with that digest, in every directory root, is in its folder. */
  ghost predicate ConfinedToFolder(roots: seq<Root>, algo: Algorithm, e: Entry)
  {
    Qualifies(e) && Truthy(HashOf(e, DEFAULT_CHUNK_SIZE, algo))
      && forall i, j :: HashedFileAt(roots, i, j, DEFAULT_CHUNK_SIZE, algo, HashOf(e, DEFAULT_CHUNK_SIZE, algo).value)
           ==> roots[i].entries[j].path.parent == e.path.parent
  }

  /** With a consistent snapshot, stage 2 reports a file of a directory root
      exactly when its content is confined to its folder. Copies in one folder
      are therefore all reported. */
  lemma ReportedIffConfined(roots: seq<Root>, algo: Algorithm, i: int, j: int)
    requires Consistent(roots)
    requires 0 <= i < |roots| && roots[i].isDir && 0 <= j < |roots[i].entries|
    ensures Reported(roots[i].entries[j], ContentMap(roots, algo), Duplicated(ContentMap(roots, algo)), algo)
      <==> ConfinedToFolder(roots, algo, roots[i].entries[j])
  {
    var cm := ContentMap(roots, algo);
    var e := roots[i].entries[j];
    var fh := HashOf(e, DEFAULT_CHUNK_SIZE, algo);
    if Qualifies(e) && Truthy(fh) {
      var h := fh.value;
      assert HashedFileAt(roots, i, j, DEFAULT_CHUNK_SIZE, algo, h);
      OwnFolderInBucket(roots, algo, i, j, h);
      BucketOfContentMap(roots, algo, h);
      DoubleCheckAgreesWithStageOne(roots, algo, i, j, h);
      if Reported(e, cm, Duplicated(cm), algo) {
        forall i2, j2 | HashedFileAt(roots, i2, j2, DEFAULT_CHUNK_SIZE, algo, h)
          ensures roots[i2].entries[j2].path.parent == e.path.parent
        {
          OwnFolderInBucket(roots, algo, i2, j2, h);
          if roots[i2].entries[j2].path.parent != e.path.parent {
            Sets.TwoMembers(Parents(cm[h]), roots[i2].entries[j2].path.parent, e.path.parent);
          }
        }
      }
      if ConfinedToFolder(roots, algo, e) {
        forall d | d in Parents(cm[h]) ensures d == e.path.parent {
          var l: Location :| l in cm[h] && l.path.parent == d;
          BucketMembership(roots, DEFAULT_CHUNK_SIZE, algo, h, l);
          var i2, j2 :| HashedFileAt(roots, i2, j2, DEFAULT_CHUNK_SIZE, algo, h)
            && l == Location(roots[i2].entries[j2].path, roots[i2].path);
        }
        Sets.OnlyMember(Parents(cm[h]), e.path.parent);
      }
    }
  }

  /** The end-to-end content-mode result: with a consistent snapshot, a name is
      listed for root `i` exactly when the root is a directory holding a file
      with that name whose content is confined to its folder. */
  lemma UniqueByContentNames(roots: seq<Root>, algo: Algorithm, i: int, name: string)
    requires Consistent(roots)
    requires 0 <= i < |roots|
    ensures var cm := ContentMap(roots, algo);
      name in UniqueNames(Scan(roots[i]), cm, Duplicated(cm), algo) <==>
        roots[i].isDir &&
        exists j :: 0 <= j < |roots[i].entries| && ConfinedToFolder(roots, algo, roots[i].entries[j]) && roots[i].entries[j].path.name == name
  {
    var cm := ContentMap(roots, algo);
    UniqueNamesMembership(Scan(roots[i]), cm, Duplicated(cm), algo, name);
    if roots[i].isDir {
      forall j | 0 <= j < |roots[i].entries|
        ensures Reported(roots[i].entries[j], cm, Duplicated(cm), algo) <==> ConfinedToFolder(roots, algo, roots[i].entries[j])
      {
        ReportedIffConfined(roots, algo, i, j);
      }
    }
  }

  /** `{dir_path for _, dir_path in locations}`: the roots a bucket spans. */
  function RootsOf(bucket: seq<Location>): set<Dir>
  {
    set l | l in bucket :: l.root
  }

  /** Content mode as its comment describes it: a file is unique when the
      bucket of its hash spans a single root directory, whatever subfolders
      the copies sit in. */
  predicate ReportedAcrossRoots(e: Entry, index: map<string, seq<Location>>, algo: Algorithm)
  {
    Qualifies(e) && Truthy(HashOf(e, DEFAULT_CHUNK_SIZE, algo))
      && |RootsOf(Bucket(index, HashOf(e, DEFAULT_CHUNK_SIZE, algo).value))| == 1
  }

  /** Every file with the same non-empty digest lies under a root whose path is `d`. */
  ghost predicate ConfinedToRoot(roots: seq<Root>, algo: Algorithm, e: Entry, d: Dir)
  {
    Qualifies(e) && Truthy(HashOf(e, DEFAULT_CHUNK_SIZE, algo))
      && forall i, j :: HashedFileAt(roots, i, j, DEFAULT_CHUNK_SIZE, algo, HashOf(e, DEFAULT_CHUNK_SIZE, algo).value)
           ==> roots[i].path == d
  }

  lemma OwnRootInBucket(roots: seq<Root>, algo: Algorithm, i: int, j: int, h: string)
    requires HashedFileAt(roots, i, j, DEFAULT_CHUNK_SIZE, algo, h)
    ensures h in ContentMap(roots, algo)
    ensures roots[i].path in RootsOf(ContentMap(roots, algo)[h])
  {
    var l := Location(roots[i].entries[j].path, roots[i].path);
    BucketMembership(roots, DEFAULT_CHUNK_SIZE, algo, h, l);
    BucketOfContentMap(roots, algo, h);
    assert l in Bucket(ContentMap(roots, algo), h);
  }

  /** The corrected test reports a file of a directory root exactly when every
      copy of its content lies under that root; no consistency assumption is needed. */
  lemma ReportedAcrossRootsIff(roots: seq<Root>, algo: Algorithm, i: int, j: int)
    requires 0 <= i < |roots| && roots[i].isDir && 0 <= j < |roots[i].entries|
    ensures ReportedAcrossRoots(roots[i].entries[j], ContentMap(roots, algo), algo)
      <==> ConfinedToRoot(roots, algo, roots[i].entries[j], roots[i].path)
  {
    var cm := ContentMap(roots, algo);
    var e := roots[i].entries[j];
    var fh := HashOf(e, DEFAULT_CHUNK_SIZE, algo);
    if Qualifies(e) && Truthy(fh) {
      var h := fh.value;
      assert HashedFileAt(roots, i, j, DEFAULT_CHUNK_SIZE, algo, h);
      OwnRootInBucket(roots, algo, i, j, h);
      BucketOfContentMap(roots, algo, h);
      if ReportedAcrossRoots(e, cm, algo) {
        forall i2, j2 | HashedFileAt(roots, i2, j2, DEFAULT_CHUNK_SIZE, algo, h)
          ensures roots[i2].path == roots[i].path
        {
          OwnRootInBucket(roots, algo, i2, j2, h);
          if roots[i2].path != roots[i].path {
            Sets.TwoMembers(RootsOf(cm[h]), roots[i2].path, roots[i].path);
          }
        }
      }
      if ConfinedToRoot(roots, algo, e, roots[i].path) {
        forall d | d in RootsOf(cm[h]) ensures d == roots[i].path {
          var l: Location :| l in cm[h] && l.root == d;
          BucketMembership(roots, DEFAULT_CHUNK_SIZE, algo, h, l);
          var i2, j2 :| HashedFileAt(roots, i2, j2, DEFAULT_CHUNK_SIZE, algo, h)
            && l == Location(roots[i2].entries[j2].path, roots[i2].path);
        }
        Sets.OnlyMember(RootsOf(cm[h]), roots[i].path);
      }
    }
  }

  /** Root `["a"]` holds two copies of the same bytes, in `x/` and `y/`; root `["b"]` is empty. */
  function CopiesInTwoSubfolders(): seq<Root>
  {
    [ Root(["a"], true, [ Entry(FilePath(["a", "x"], "f.txt"), true, false, Bytes([1])),
                          Entry(FilePath(["a", "y"], "g.txt"), true, false, Bytes([1])) ]),
      Root(["b"], true, []) ]
  }

  /** Both copies lie under root `["a"]` only, yet the code reports neither,
      while the corrected test reports both. */
  lemma CopiesInTwoSubfoldersWitness(algo: Algorithm)
    requires algo([1]) != ""
    ensures var roots := CopiesInTwoSubfolders(); var cm := ContentMap(roots, algo);
      !Reported(roots[0].entries[0], cm, Duplicated(cm), algo)
      && !Reported(roots[0].entries[1], cm, Duplicated(cm), algo)
      && ReportedAcrossRoots(roots[0].entries[0], cm, algo)
      && ReportedAcrossRoots(roots[0].entries[1], cm, algo)
  {
    var roots := CopiesInTwoSubfolders();
    var h := algo([1]);
    FileHashIsDigestOfContent(roots[0].entries[0].content, DEFAULT_CHUNK_SIZE, algo);
    FileHashIsDigestOfContent(roots[0].entries[1].content, DEFAULT_CHUNK_SIZE, algo);
    assert HashedFileAt(roots, 0, 0, DEFAULT_CHUNK_SIZE, algo, h);
    assert HashedFileAt(roots, 0, 1, DEFAULT_CHUNK_SIZE, algo, h);
    DifferentFoldersNotUnique(roots, algo, 0, 0, 0, 1, h);
    DifferentFoldersNotUnique(roots, algo, 0, 1, 0, 0, h);
    ReportedAcrossRootsIff(roots, algo, 0, 0);
    ReportedAcrossRootsIff(roots, algo, 0, 1);
  }
}
