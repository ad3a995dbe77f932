/** The content index: for each digest, the (file, root) locations of the
    files whose content hashes to it, in scan order. */
module ContentIndex {
  import opened Snapshot
  import opened Multimap
  import opened Hashing

  /** A bucket element: the file's path and the root it was found under. */
  datatype Location = Location(path: FilePath, root: Dir)

  /** The entries the content scan hashes: files (`is_file()`) whose final segment is not hidden. */
  predicate Qualifies(e: Entry)
  {
    !IsHidden(e.path.name) && e.isFile
  }

  /** The hash the scan computes for an entry. */
  function HashOf(e: Entry, chunkSize: ReadSize, algo: Algorithm): Option<string>
  {
    FileHash(e.content, chunkSize, algo)
  }

  /** The (digest, location) pairs appended while scanning `es` under root `d`:
      a qualifying file is kept when its hash is present and non-empty. */
  function HitsIn(d: Dir, es: seq<Entry>, chunkSize: ReadSize, algo: Algorithm): seq<(string, Location)>
  {
    if es == [] then []
    else
      var e := es[|es| - 1];
      HitsIn(d, es[..|es| - 1], chunkSize, algo)
        + (if Qualifies(e) && Truthy(HashOf(e, chunkSize, algo))
           then [(HashOf(e, chunkSize, algo).value, Location(e.path, d))] else [])
  }

  /** The pairs appended while scanning `roots` in order; a root that is not a
      directory is skipped. */
  function Hits(roots: seq<Root>, chunkSize: ReadSize, algo: Algorithm): seq<(string, Location)>
  {
    if roots == [] then []
    else
      var r := roots[|roots| - 1];
      Hits(roots[..|roots| - 1], chunkSize, algo)
        + (if r.isDir then HitsIn(r.path, r.entries, chunkSize, algo) else [])
  }

  /** The bucket the index holds for digest `h`. */
  function Occurrences(roots: seq<Root>, chunkSize: ReadSize, algo: Algorithm, h: string): seq<Location>
  {
    Select(Hits(roots, chunkSize, algo), h)
  }

  lemma HitsInSnoc(d: Dir, es: seq<Entry>, j: int, chunkSize: ReadSize, algo: Algorithm)
    requires 0 <= j < |es|
    ensures HitsIn(d, es[..j + 1], chunkSize, algo)
      == HitsIn(d, es[..j], chunkSize, algo)
        + (if Qualifies(es[j]) && Truthy(HashOf(es[j], chunkSize, algo))
           then [(HashOf(es[j], chunkSize, algo).value, Location(es[j].path, d))] else [])
  {
    assert es[..j + 1][..j] == es[..j];
  }

  lemma HitsSnoc(roots: seq<Root>, i: int, chunkSize: ReadSize, algo: Algorithm)
    requires 0 <= i < |roots|
    ensures Hits(roots[..i + 1], chunkSize, algo)
      == Hits(roots[..i], chunkSize, algo)
        + (if roots[i].isDir then HitsIn(roots[i].path, roots[i].entries, chunkSize, algo) else [])
  {
    assert roots[..i + 1][..i] == roots[..i];
  }

  /** The inner loop over one root's entries: each qualifying file is hashed,
      and a truthy hash appends (hash, location) to the index. */
  method IndexEntries(index: map<string, seq<Location>>, d: Dir, es: seq<Entry>, chunkSize: ReadSize, algo: Algorithm,
                      ghost done: seq<(string, Location)>)
    returns (index': map<string, seq<Location>>)
    requires index == Group(done)
    ensures index' == Group(done + HitsIn(d, es, chunkSize, algo))
  {
    index' := index;
    assert es[..0] == [];
    assert done + HitsIn(d, es[..0], chunkSize, algo) == done;
    for j := 0 to |es|
      invariant index' == Group(done + HitsIn(d, es[..j], chunkSize, algo))
    {
      HitsInSnoc(d, es, j, chunkSize, algo);
      var e := es[j];
      ghost var seen := done + HitsIn(d, es[..j], chunkSize, algo);
      if IsHidden(e.path.name) || !e.isFile {
        assert done + HitsIn(d, es[..j + 1], chunkSize, algo) == seen;
        continue;
      }
      var fileHash: Option<string>;
      ghost var chunks: seq<seq<byte>>;
      var outcome;
      outcome, chunks := CalculateFileHash(e.content, chunkSize, algo);
      fileHash := outcome.hash;
      assert fileHash == HashOf(e, chunkSize, algo);
      if Truthy(fileHash) {
        var loc := Location(e.path, d);
        GroupSnoc(seen, fileHash.value, loc);
        index' := Append(index', fileHash.value, loc);
        assert done + HitsIn(d, es[..j + 1], chunkSize, algo) == seen + [(fileHash.value, loc)];
      } else {
        assert done + HitsIn(d, es[..j + 1], chunkSize, algo) == seen;
      }
    }
    assert es[..|es|] == es;
  }

  /** `get_files_by_content`: a digest is a key exactly when some qualifying
      file hashes to it, and its bucket holds the location of each such file,
      in scan order. */
  method GetFilesByContent(roots: seq<Root>, chunkSize: ReadSize, algo: Algorithm)
    returns (index: map<string, seq<Location>>)
    ensures forall h :: h in index <==> Occurrences(roots, chunkSize, algo, h) != []
    ensures forall h :: h in index ==> index[h] == Occurrences(roots, chunkSize, algo, h)
  {
    index := map[];
    for i := 0 to |roots|
      invariant index == Group(Hits(roots[..i], chunkSize, algo))
    {
      HitsSnoc(roots, i, chunkSize, algo);
      var r := roots[i];
      if !r.isDir {
        assert Hits(roots[..i + 1], chunkSize, algo) == Hits(roots[..i], chunkSize, algo);
        continue;
      }
      index := IndexEntries(index, r.path, r.entries, chunkSize, algo, Hits(roots[..i], chunkSize, algo));
    }
    assert roots[..|roots|] == roots;
    GroupLookup(Hits(roots, chunkSize, algo));
  }

  /** A qualifying file whose hash is the non-empty digest `h`. */
  predicate HashedTo(e: Entry, chunkSize: ReadSize, algo: Algorithm, h: string)
  {
    Qualifies(e) && h != "" && HashOf(e, chunkSize, algo) == Some(h)
  }

  /** Entry `j` of root `i` is a directory root's file hashed to `h`. */
  ghost predicate HashedFileAt(roots: seq<Root>, i: int, j: int, chunkSize: ReadSize, algo: Algorithm, h: string)
  {
    0 <= i < |roots| && roots[i].isDir && 0 <= j < |roots[i].entries|
      && HashedTo(roots[i].entries[j], chunkSize, algo, h)
  }

  lemma HashedFileAtPrefix(roots: seq<Root>, k: int, i: int, j: int, chunkSize: ReadSize, algo: Algorithm, h: string)
    requires 0 <= k <= |roots|
    ensures HashedFileAt(roots[..k], i, j, chunkSize, algo, h) <==> i < k && HashedFileAt(roots, i, j, chunkSize, algo, h)
    ensures 0 <= i < k ==> roots[..k][i] == roots[i]
  {
  }

  lemma {:induction false} HitsInMembership(d: Dir, es: seq<Entry>, chunkSize: ReadSize, algo: Algorithm, h: string, l: Location)
    ensures (h, l) in HitsIn(d, es, chunkSize, algo) <==>
      l.root == d && (exists j :: 0 <= j < |es| && HashedTo(es[j], chunkSize, algo, h) && es[j].path == l.path)
  {
    if es != [] {
      var k := |es| - 1;
      var e := es[k];
      var tail := if Qualifies(e) && Truthy(HashOf(e, chunkSize, algo))
        then [(HashOf(e, chunkSize, algo).value, Location(e.path, d))] else [];
      assert HitsIn(d, es, chunkSize, algo) == HitsIn(d, es[..k], chunkSize, algo) + tail;
      HitsInMembership(d, es[..k], chunkSize, algo, h, l);
      if (h, l) in HitsIn(d, es, chunkSize, algo) {
        if (h, l) in HitsIn(d, es[..k], chunkSize, algo) {
          var j :| 0 <= j < k && HashedTo(es[..k][j], chunkSize, algo, h) && es[..k][j].path == l.path;
          assert es[j] == es[..k][j];
        } else {
          assert HashedTo(es[k], chunkSize, algo, h) && es[k].path == l.path;
        }
      }
      if l.root == d && exists j :: 0 <= j < |es| && HashedTo(es[j], chunkSize, algo, h) && es[j].path == l.path {
        var j :| 0 <= j < |es| && HashedTo(es[j], chunkSize, algo, h) && es[j].path == l.path;
        if j < k {
          assert es[..k][j] == es[j];
        } else {
          assert (h, l) in tail;
        }
      }
    }
  }

  lemma {:induction false} HitsMembership(roots: seq<Root>, chunkSize: ReadSize, algo: Algorithm, h: string, l: Location)
    ensures (h, l) in Hits(roots, chunkSize, algo) <==>
      exists i, j :: HashedFileAt(roots, i, j, chunkSize, algo, h) && l == Location(roots[i].entries[j].path, roots[i].path)
  {
    if roots != [] {
      var k := |roots| - 1;
      var r := roots[k];
      HitsMembership(roots[..k], chunkSize, algo, h, l);
      HitsInMembership(r.path, r.entries, chunkSize, algo, h, l);
      assert Hits(roots, chunkSize, algo)
        == Hits(roots[..k], chunkSize, algo) + (if r.isDir then HitsIn(r.path, r.entries, chunkSize, algo) else []);
      if exists i, j :: HashedFileAt(roots, i, j, chunkSize, algo, h) && l == Location(roots[i].entries[j].path, roots[i].path) {
        var i, j :| HashedFileAt(roots, i, j, chunkSize, algo, h) && l == Location(roots[i].entries[j].path, roots[i].path);
        HashedFileAtPrefix(roots, k, i, j, chunkSize, algo, h);
        if i == k {
          assert (h, l) in HitsIn(r.path, r.entries, chunkSize, algo);
        }
      }
      if (h, l) in Hits(roots[..k], chunkSize, algo) {
        var i, j :| HashedFileAt(roots[..k], i, j, chunkSize, algo, h)
          && l == Location(roots[..k][i].entries[j].path, roots[..k][i].path);
        HashedFileAtPrefix(roots, k, i, j, chunkSize, algo, h);
      } else if r.isDir && (h, l) in HitsIn(r.path, r.entries, chunkSize, algo) {
        var j :| 0 <= j < |r.entries| && HashedTo(r.entries[j], chunkSize, algo, h) && r.entries[j].path == l.path;
        assert HashedFileAt(roots, k, j, chunkSize, algo, h);
      }
    }
  }

  /** A location is in the bucket of `h` exactly when it is a qualifying file
      of a directory root whose hash is `h`, paired with that root. */
  lemma BucketMembership(roots: seq<Root>, chunkSize: ReadSize, algo: Algorithm, h: string, l: Location)
    ensures l in Occurrences(roots, chunkSize, algo, h) <==>
      exists i, j :: HashedFileAt(roots, i, j, chunkSize, algo, h) && l == Location(roots[i].entries[j].path, roots[i].path)
  {
    SelectMembership(Hits(roots, chunkSize, algo), h, l);
    HitsMembership(roots, chunkSize, algo, h, l);
  }

  /** Every location in every bucket is a visible file whose bytes were read
      and hash to that bucket's (non-empty) digest. */
  lemma BucketsHoldHashedFiles(roots: seq<Root>, chunkSize: ReadSize, algo: Algorithm, h: string, l: Location)
    requires l in Occurrences(roots, chunkSize, algo, h)
    ensures h != "" && !IsHidden(l.path.name)
    ensures exists i, j :: (0 <= i < |roots| && roots[i].isDir && 0 <= j < |roots[i].entries|
      && roots[i].path == l.root && roots[i].entries[j].path == l.path
      && roots[i].entries[j].isFile && roots[i].entries[j].content.Bytes?
      && Some(h) == FileHash(roots[i].entries[j].content, chunkSize, algo))
  {
    BucketMembership(roots, chunkSize, algo, h, l);
    var i, j :| HashedFileAt(roots, i, j, chunkSize, algo, h) && l == Location(roots[i].entries[j].path, roots[i].path);
    FileHashIsDigestOfContent(roots[i].entries[j].content, chunkSize, algo);
  }

  /** A file that cannot be read is in no bucket. */
  lemma UnreadableNeverIndexed(roots: seq<Root>, chunkSize: ReadSize, algo: Algorithm, i: int, j: int, h: string)
    requires Consistent(roots)
    requires 0 <= i < |roots| && 0 <= j < |roots[i].entries| && roots[i].entries[j].content.Unreadable?
    ensures forall l :: l in Occurrences(roots, chunkSize, algo, h) ==> l.path != roots[i].entries[j].path
  {
    var e := roots[i].entries[j];
    forall l | l in Occurrences(roots, chunkSize, algo, h)
      ensures l.path != e.path
    {
      BucketMembership(roots, chunkSize, algo, h, l);
      var i2, j2 :| HashedFileAt(roots, i2, j2, chunkSize, algo, h) && l == Location(roots[i2].entries[j2].path, roots[i2].path);
      if l.path == e.path {
        SamePathSameEntry(roots, i, j, i2, j2);
      }
    }
  }

  /** An empty digest is falsy, so it never becomes a key. */
  lemma EmptyDigestNeverIndexed(roots: seq<Root>, chunkSize: ReadSize, algo: Algorithm)
    ensures Occurrences(roots, chunkSize, algo, "") == []
  {
    var occ := Occurrences(roots, chunkSize, algo, "");
    if occ != [] {
      BucketMembership(roots, chunkSize, algo, "", occ[0]);
    }
  }

  lemma {:induction false} HitsAppend(a: seq<Root>, b: seq<Root>, chunkSize: ReadSize, algo: Algorithm)
    ensures Hits(a + b, chunkSize, algo) == Hits(a, chunkSize, algo) + Hits(b, chunkSize, algo)
  {
    if b == [] {
      assert a + b == a;
    } else {
      var k := |b| - 1;
      var tail := if b[k].isDir then HitsIn(b[k].path, b[k].entries, chunkSize, algo) else [];
      HitsAppend(a, b[..k], chunkSize, algo);
      assert (a + b)[..|a| + k] == a + b[..k];
      assert Hits(a + b, chunkSize, algo) == Hits(a + b[..k], chunkSize, algo) + tail;
      assert Hits(b, chunkSize, algo) == Hits(b[..k], chunkSize, algo) + tail;
    }
  }

  /** A root that is not a directory contributes nothing, wherever it stands. */
  lemma InvalidRootIgnored(before: seq<Root>, bad: Root, after: seq<Root>, chunkSize: ReadSize, algo: Algorithm)
    requires !bad.isDir
    ensures forall h :: Occurrences(before + [bad] + after, chunkSize, algo, h) == Occurrences(before + after, chunkSize, algo, h)
  {
    HitsAppend(before + [bad], after, chunkSize, algo);
    HitsAppend(before, [bad], chunkSize, algo);
    HitsAppend(before, after, chunkSize, algo);
    assert Hits([bad], chunkSize, algo) == [] by {
      assert [bad][..0] == [];
    }
    assert Hits(before + [bad] + after, chunkSize, algo) == Hits(before + after, chunkSize, algo);
  }
}
