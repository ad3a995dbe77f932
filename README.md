# unique_files — a verified model of the directory comparison

`unique_files.py` compares two or more directories and lists, for each one,
the files that are unique to it. It has two modes:

- **By name** (the default). Every visible file under each root is
  indexed by its final path segment. A name is unique to a root when the
  index holds that root once and nothing else. Each root's unique names are
  listed sorted.
- **By content** (`--by-content`). Every visible file is hashed in
  8192-byte chunks, and its location is indexed under the hex digest.
  - Stage 1 marks every path whose digest bucket spans two or more parent
    folders.
  - Stage 2 re-scans each root. It reports a file when its path is unmarked,
    a fresh hash of it is non-empty, and that hash's bucket spans exactly one
    parent folder.

The project models this core in Dafny, in the form the code has:

| file | module | what it holds |
|---|---|---|
| `snapshot.dfy` | `Snapshot` | The filesystem as a snapshot: each root with its directory flag and the entries a recursive glob yields. |
| `snapshot.dfy` | `Sets` | Set-size facts for the `len(...) > 1` and `len(...) == 1` tests. |
| `multimap.dfy` | `Multimap` | `defaultdict(list)` with `append`. `Group` folds a list of (key, value) hits into the dictionary; `Select` reads one key. |
| `hashing.dfy` | `Hashing` | `calculate_file_hash`: a file reader class, a running-digest class, and the read loop as a method with invariants. All are proved against the chunk list `ChunksOf`. |
| `ordering.dfy` | `Ordering` | Python's `str` ordering and `sorted` (insertion sort), proved sorted and a permutation. |
| `name_index.dfy` | `NameIndex` | `get_files_by_name` as a nested loop, proved against the fold `Hits`. |
| `name_resolver.dfy` | `NameResolver` | The inversion and sort of name mode. |
| `content_index.dfy` | `ContentIndex` | `get_files_by_content`, proved against its fold. |
| `content_resolver.dfy` | `ContentResolver` | The two stages of content mode, and what they report. |

More on the modelling choices:

- **Roots.** A root that is not a directory is skipped by both index
  builders. The content-mode re-scan globs every root named; a glob of a path
  that is not a directory yields nothing (`Snapshot.Scan`).
- **The digest.** The digest function is a parameter: only the bytes fed to
  it matter.
- **Files.** `Entry.isFile` is what `is_file()` returns. That includes a
  link to a regular file, so linked files are indexed in both modes even when
  links are not followed.
- **Read failures.** A file that cannot be opened or read is `Unreadable`,
  and its hash is `None`. An `Unreadable` file is taken to fail at `open`,
  so it gives `None` for every chunk size, even one below -1.
- **`if file_hash:`.** This is `Hashing.Truthy`: the hash is present and is
  not the empty string.
- **Overlapping roots.** Some properties hold only when each path names one
  entry, even when roots overlap or repeat. Those properties are stated under
  `Snapshot.Consistent`.

## Model

| member | source | states |
|---|---|---|
| `Hashing.ReadEnd` | unique_files.py:20 | `f.read(n)` from a position stops at the end for `n == -1`, and otherwise takes at most `n` bytes and never passes the end. `ReadSize` admits only `n >= -1`, the sizes `read` accepts. |
| `Hashing.FileReader.Open` | unique_files.py:19 | An opened file starts at position 0 over the file's bytes. |
| `Hashing.FileReader.Read` | unique_files.py:20 | A size below -1 raises `ValueError` and leaves the position unchanged. Any other size returns the bytes from the old position to `ReadEnd`, and advances the position to that point. |
| `Hashing.HashAccumulator.New` | unique_files.py:17 | A fresh digest has been fed nothing. |
| `Hashing.HashAccumulator.Update` | unique_files.py:21 | `update(chunk)` appends the chunk to the bytes fed, and records it as one more update. |
| `Hashing.HashAccumulator.HexDigest` | unique_files.py:22 | `hexdigest()` is the digest of all the chunks fed so far, concatenated in order. |
| `Hashing.FeedFile` | unique_files.py:20-21 | The loop `while chunk := f.read(size): update(chunk)` feeds exactly the chunks `ChunksFrom` lists from the current position, in order, and then stops. The file is then at its end, or unmoved for a zero chunk size. A size below -1 raises at the first read and feeds nothing. |
| `Hashing.ChunksAreBounded` | unique_files.py:20-21 | Every chunk fed is non-empty, and no longer than a positive chunk size. |
| `Hashing.ChunksCoverData` | unique_files.py:20-21 | For chunk size -1 or any positive size, the chunks concatenate to exactly the file's bytes. A zero chunk size feeds nothing. Sizes below -1 are not a `ReadSize`: `read` raises for them (see `CalculateFileHash`). |
| `Hashing.CalculateFileHash` | unique_files.py:15-25 | An unreadable file returns `None`. A readable file with a chunk size below -1 ends in the uncaught `ValueError` of `read`. Any other chunk size returns the digest of the chunks fed, which equals `FileHash`, and for a non-zero size is the digest of the whole file. |
| `Hashing.FileHashIsDigestOfContent` | unique_files.py:15-25 | For the sizes `read` accepts (`ReadSize`, at least -1): the hash is `None` exactly when the file is unreadable. Size -1 or a positive size gives the digest of the content, and size 0 the digest of nothing. |
| `Multimap.GroupLookup` | unique_files.py:29-41 | After the appends, a key is present exactly when some hit had it, and its list holds that key's values in append order. |
| `Multimap.SelectMembership` | unique_files.py:41 | A value is in a key's list exactly when that (key, value) pair was appended. |
| `Multimap.AppendLookup` | unique_files.py:41 | `d[k].append(v)` on a `defaultdict(list)` adds `k` if it was missing and puts `v` after its earlier values. Every other key's list is unchanged. The same append is used at line 61. |
| `Ordering.BelowTotal` | unique_files.py:79 | Python's string order is total. |
| `Ordering.BelowTransitive` | unique_files.py:79 | Python's string order is transitive. |
| `Ordering.Insert` | unique_files.py:79 | Inserting into a sorted list keeps it sorted and adds exactly that element. |
| `Ordering.Sort` | unique_files.py:79 | `sorted(s)` is ascending and a permutation of `s`. |
| `Ordering.SortedSetIsStrict` | unique_files.py:79 | Sorting names that are each present once gives a strictly ascending list of exactly those names. |
| `NameIndex.GetFilesByName` | unique_files.py:27-43 | A name is a key exactly when some qualifying entry has it. Its list is `Occurrences`: the root of each such file, in scan order. |
| `NameIndex.IndexEntries` | unique_files.py:37-41 | The scan of one root appends `(name, root)` for each qualifying entry, in scan order. The index afterwards is the fold of all hits so far plus this root's hits. |
| `NameIndex.OccurrencesCount` | unique_files.py:37-41 | The length of a name's list is the number of qualifying files with that name across all directory roots. It is not the number of roots. |
| `NameIndex.OccurrencesMembership` | unique_files.py:31-41 | A root is in a name's list exactly when a qualifying file with that name was found under it. |
| `NameIndex.HiddenNeverIndexed` | unique_files.py:38-39 | A name starting with a dot never gets a list. |
| `NameIndex.HiddenFolderContentsIndexed` | unique_files.py:38-41 | Only the final segment is tested. A visible file inside a hidden subfolder is still indexed under its root. |
| `NameIndex.InvalidRootIgnored` | unique_files.py:32-35 | A root that is not a directory changes no list, wherever it appears among the roots. |
| `NameResolver.InvertUnique` | unique_files.py:68-79 | A root gets a list exactly when some name's list is `[root]`. That list is strictly ascending and holds exactly those names, and no name is listed under two roots. |
| `NameResolver.UniqueByName` | unique_files.py:65-79 | With links not followed, a name is listed under `d` exactly when its index list is `[d]`. Each root's list is strictly ascending. |
| `NameResolver.UniqueIffSingleFile` | unique_files.py:71-74 | A name is unique to `d` exactly when one qualifying file in all the roots has it, and that file lies under a root whose path is `d`. |
| `NameResolver.SameNameTwiceNotUnique` | unique_files.py:41-72 | Two qualifying files with the same name make that name unique to no root. This holds even when both files are in one root. |
| `NameResolver.Distinct` | unique_files.py:28 | The list with repeats removed has the same members and no repeats. |
| `NameResolver.DistinctSingleton` | unique_files.py:28 | The distinct roots of a list are `[d]` exactly when the list is non-empty and holds only `d`. |
| `NameResolver.InvertUniqueAcrossRoots` | unique_files.py:68-79 | Corrected inversion: a name is listed under `d` when its list is non-empty and holds only `d`. Each list is strictly ascending. |
| `NameResolver.UniqueByNameAcrossRoots` | unique_files.py:65-79 | Corrected name mode: a name is listed under `d` exactly when some qualifying file has it and every such file lies under `d`. |
| `NameResolver.RepeatedInOneRootWitness` | unique_files.py:41-72 | For a name found twice under one root and nowhere else: the code lists it under no root, and the corrected definition lists it under that root. |
| `ContentIndex.GetFilesByContent` | unique_files.py:45-63 | A digest is a key exactly when some qualifying file hashes to it. Its bucket is `Occurrences`: the (path, root) of each such file, in scan order. |
| `ContentIndex.IndexEntries` | unique_files.py:54-61 | The scan of one root hashes each visible file (`is_file()`), and appends `(digest, (path, root))` when the digest is truthy. The index afterwards is the fold of all hits so far plus this root's hits. |
| `ContentIndex.BucketMembership` | unique_files.py:49-61 | A location is in a digest's bucket exactly when it is a visible file (`is_file()`) of a directory root, paired with that root, whose hash is that non-empty digest. |
| `ContentIndex.BucketsHoldHashedFiles` | unique_files.py:54-61 | Every bucket entry is a visible file (`is_file()`) whose bytes were read and hash to the bucket's digest. The digest is never empty. |
| `ContentIndex.UnreadableNeverIndexed` | unique_files.py:23-25 | A file that cannot be read appears in no bucket. |
| `ContentIndex.EmptyDigestNeverIndexed` | unique_files.py:60-61 | An empty digest is falsy, so it is never a key. |
| `ContentIndex.InvalidRootIgnored` | unique_files.py:50-52 | A root that is not a directory changes no bucket, wherever it appears among the roots. |
| `ContentResolver.AddPaths` | unique_files.py:112-113 | Adding a bucket's paths to the marked set gives exactly the old set plus those paths. |
| `ContentResolver.SeenInMultiple` | unique_files.py:107-113 | A path is marked exactly when some bucket holding it spans more than one parent folder. |
| `ContentResolver.UniqueIn` | unique_files.py:116-127 | Re-scanning one root gives the names of its reported files, in scan order. A root that is not a directory gives none. |
| `ContentResolver.UniqueByContent` | unique_files.py:116-131 | For every root named, in order, the list is a sorted permutation of that root's reported names. |
| `ContentResolver.CompareByContent` | unique_files.py:103-131 | The index is the content map at 8192-byte chunks. The marked set is `Duplicated` of that map. Each root's list is a sorted permutation of its reported names. |
| `ContentResolver.UniqueNamesMembership` | unique_files.py:116-127 | A name is listed for a root exactly when one of its entries with that name is reported. |
| `ContentResolver.BucketOfContentMap` | unique_files.py:126 | Looking up a digest in the map (missing means empty) gives the scan's bucket for that digest. |
| `ContentResolver.DefaultLookupChangesNoBucket` | unique_files.py:126 | The lookup `content_map[file_hash]` stores an empty bucket under a missing digest. Every later lookup, of any digest, reads the same bucket as without that insertion. |
| `ContentResolver.MissingDigestSpansNoFolder` | unique_files.py:126 | A digest that is not a key reads as an empty bucket with no parent folders, so the `== 1` test fails for it. |
| `ContentResolver.ParentsBound` | unique_files.py:110 | The set of parent folders of a bucket is empty exactly when the bucket is empty. It never has more members than the bucket has locations. The same set is built at line 126. |
| `ContentResolver.ReportedWasRead` | unique_files.py:119-126 | A file the stage-2 test reports was readable. Its fresh hash is the digest of its whole content, and that digest is a key of the map with a non-empty bucket. |
| `ContentResolver.OwnFolderInBucket` | unique_files.py:59-61 | A hashed file's own path is in its bucket, so its parent folder is among the bucket's parents. |
| `ContentResolver.DifferentFoldersNotUnique` | unique_files.py:107-126 | Two files with the same non-empty digest in different parent folders are marked and never reported. This holds even when both are in one root. |
| `ContentResolver.DoubleCheckAgreesWithStageOne` | unique_files.py:123-126 | On a consistent snapshot, a hashed file's path is marked exactly when the bucket re-read in stage 2 spans more than one folder. The double check never disagrees with stage 1. |
| `ContentResolver.MarkedIfSpread` | unique_files.py:108-111 | A hashed file whose bucket spans more than one folder has its path marked as seen by stage 1. |
| `ContentResolver.SpreadIfMarked` | unique_files.py:123-126 | On a consistent snapshot, a marked hashed file's own bucket spans more than one folder. |
| `ContentResolver.ReportedIffConfined` | unique_files.py:116-127 | On a consistent snapshot, a file of a directory root is reported exactly when it hashed to a non-empty digest and every file with that digest is in its parent folder. Copies within one folder are therefore all reported. |
| `ContentResolver.UniqueByContentNames` | unique_files.py:116-131 | On a consistent snapshot, a name is listed for root `i` exactly when the root is a directory holding a file with that name whose content is confined to its folder. |
| `ContentResolver.OwnRootInBucket` | unique_files.py:61 | A hashed file's root is among the roots its bucket records. |
| `ContentResolver.ReportedAcrossRootsIff` | unique_files.py:107-127 | Corrected content mode: a file is reported exactly when every copy of its content lies under its own root. |
| `ContentResolver.CopiesInTwoSubfoldersWitness` | unique_files.py:107-127 | For two identical files in two subfolders of one root, with no copy elsewhere: the code reports neither, and the corrected test reports both. |

## Left out

- **Printing.** The printing and its layout are not modelled:
  - the banners and headings;
  - the per-directory counts;
  - the "no unique files" line;
  - the order of directories by final name (line 78);
  - the preview cap of 50 names (lines 81 and 131-134).
  The lists the model returns are complete.
- **Command line.** Argument parsing and the exit when fewer than two
  directories are given (lines 87-101) are not modelled.
- **`--follow-symlinks`.** The flag is parsed (line 92) but never passed on,
  since `print_unique_by_name` calls `get_files_by_name` with the default.
  `GetFilesByName` keeps the parameter, and `UniqueByName` passes `false` as
  the code does.
- **Warnings and errors on stderr** (lines 24 and 34) are not modelled.
- **The digest.** MD5 itself and `hashlib.new` are not modelled. The digest
  is an uninterpreted function parameter, so every property holds for any
  algorithm.
- **Read failures.** A failure part-way through a read is not distinguished
  from one at `open`. Both give `None`, which the model states as an
  `Unreadable` file.
- **Path identity.**
  - The content index stores paths under the resolved root (line 50). The
    stage-2 re-scan globs the paths as given (lines 101 and 116-118).
  - The model takes every path to be canonical already, so the two agree.
  - With a relative or symlinked argument the real `not in
    seen_in_multiple` test compares differently spelled paths. That case is
    not captured.
- **A changing filesystem.** Both stages see one snapshot. Changes between
  the scans, and between the two hashes of one file, are not captured.
- **Dictionary iteration order.** The code iterates keys in insertion order
  (lines 71 and 109). The model picks keys in an arbitrary order, and proves
  a result that does not depend on it.
- **The `defaultdict` lookup in the double check** (line 126) inserts an
  empty bucket for a missing digest. The map is read again for every later
  file, but the inserted empty bucket reads the same as a missing key. Both
  give no parent folders, so `len(...) == 1` is false either way. The model
  leaves the map unchanged, and `Bucket` returns the empty list.
  `DefaultLookupChangesNoBucket` proves that every later lookup reads the
  same bucket with or without the insertion.
- **Lone surrogates in file names.** Python compares strings by code point,
  and the model compares `char` values, which are Unicode scalar values. On
  POSIX, Python decodes undecodable bytes of a file name with
  `surrogateescape`. The result holds lone surrogate code points
  (U+DC80 to U+DCFF), and a Dafny `char` cannot hold those. Such names are
  not captured.
- ContentIndex.GetFilesByContent: takes a `ReadSize` chunk size (at least -1), so a call that raises is not modelled. With a smaller size, `read` raises `ValueError` at the first readable visible file, and `calculate_file_hash` does not catch it, so `get_files_by_content` aborts. `CalculateFileHash` models that outcome. Every caller in the program passes the default 8192.
- ContentIndex.IndexEntries: takes a `ReadSize` chunk size for the same reason as `GetFilesByContent`.
- **`hash_algo`.** The parameter of `calculate_file_hash` is folded into the
  digest function parameter.

## Findings

| source | as written | input that shows it | evidently intended | confidence | as-written member | corrected member |
|---|---|---|---|---|---|---|
| unique_files.py:41-72 | The name list gets one element per file found, so `len(dirs_containing) == 1` counts files, not directories. | Root `a` holds `x/a.txt` and `y/a.txt`, and root `b` has no `a.txt`. The name `a.txt` is listed under no root. | The docstring at line 28 calls the list the directories containing the name. A name present under a single root should be unique to that root. | medium, not executed | `NameResolver.RepeatedInOneRootWitness` | `NameResolver.UniqueByNameAcrossRoots` |
| unique_files.py:110-126 | Both stages count the parent folders of a bucket (`path.parent`) and ignore the root stored beside each path. | Root `a` holds identical files `x/f.txt` and `y/g.txt`, and root `b` is empty. Neither file is reported for `a`. | The comment at line 107 speaks of duplicates across directories. A file whose copies all lie under one root should be unique to it. | medium, not executed | `ContentResolver.CopiesInTwoSubfoldersWitness` | `ContentResolver.ReportedAcrossRootsIff` |

The two findings have a limited effect on the model:

- The main model follows the code as written: `UniqueByName`,
  `SeenInMultiple` and `UniqueIn`.
- The corrected definitions stand beside it, and nothing else in the model
  builds on either one.

On a consistent snapshot, the parent-count test at line 126 never changes
the result for a file whose fresh hash is truthy. Such a file passes that
test whenever it passes the test at line 123. This follows from
`DoubleCheckAgreesWithStageOne` and `OwnFolderInBucket`. A file whose hash
is `None` or empty is never marked, so it passes line 123, but it still
fails line 126 on `file_hash`.
