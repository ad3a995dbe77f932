/** The file hasher: a file is read in chunks of at most `chunk_size` bytes,
    each chunk is fed to an incremental digest, and the hexadecimal digest is
    returned; a file that cannot be opened or read has no hash. The digest
    algorithm itself is a parameter: only the bytes fed to it matter. */
module Hashing {
  import opened Snapshot

  /** The chunk size every caller in the program uses. */
  const DEFAULT_CHUNK_SIZE: int := 8192

  /** A hash algorithm: the hexadecimal digest of the bytes fed to it, in order. */
  type Algorithm = seq<byte> -> string

  /** The sizes `read(size)` on a binary file accepts: -1 for "to the end",
      or a byte count. Any smaller size raises `ValueError`. */
  type ReadSize = n: int | -1 <= n

  /** The outcome of `calculate_file_hash`: it returns a hash or None, or the
      `ValueError` of a read with a size below -1 escapes it, since only
      `OSError` is caught. */
  datatype Outcome = Returned(hash: Option<string>) | Raised

  /** Where one `read(size)` from position `pos` of a file of `len` bytes
      stops: at the end for size -1, otherwise at most `size` bytes on. */
  function ReadEnd(len: nat, pos: nat, size: ReadSize): (end: nat)
    requires pos <= len
    ensures pos <= end <= len
    ensures size == -1 ==> end == len
    ensures size >= 0 ==> end - pos == if size < len - pos then size else len - pos
  {
    if size < 0 || pos + size > len then len else pos + size
  }

  /** The chunks the read loop feeds to the digest from position `pos` on:
      it stops at the first empty read. */
  function ChunksFrom(data: seq<byte>, pos: nat, size: ReadSize): seq<seq<byte>>
    requires pos <= |data|
    decreases |data| - pos
  {
    var end := ReadEnd(|data|, pos, size);
    if end == pos then [] else [data[pos..end]] + ChunksFrom(data, end, size)
  }

  /** The chunks of a whole file. */
  function ChunksOf(data: seq<byte>, size: ReadSize): seq<seq<byte>>
  {
    ChunksFrom(data, 0, size)
  }

  /** The bytes a list of chunks holds, in order. */
  function Flatten(chunks: seq<seq<byte>>): seq<byte>
  {
    if chunks == [] then [] else chunks[0] + Flatten(chunks[1..])
  }

  lemma {:induction false} FlattenSnoc(chunks: seq<seq<byte>>, c: seq<byte>)
    ensures Flatten(chunks + [c]) == Flatten(chunks) + c
  {
    if chunks == [] {
      assert chunks + [c] == [c];
    } else {
      assert (chunks + [c])[1..] == chunks[1..] + [c];
      FlattenSnoc(chunks[1..], c);
    }
  }

  lemma {:induction false} ChunksFromAreBounded(data: seq<byte>, pos: nat, size: ReadSize)
    requires pos <= |data|
    ensures forall c :: c in ChunksFrom(data, pos, size) ==> c != [] && (size > 0 ==> |c| <= size)
    decreases |data| - pos
  {
    var end := ReadEnd(|data|, pos, size);
    if end != pos {
      ChunksFromAreBounded(data, end, size);
    }
  }

  /** Every chunk fed to the digest is non-empty, and no longer than a positive chunk size. */
  lemma ChunksAreBounded(data: seq<byte>, size: ReadSize)
    ensures forall c :: c in ChunksOf(data, size) ==> c != [] && (size > 0 ==> |c| <= size)
  {
    ChunksFromAreBounded(data, 0, size);
  }

  lemma {:induction false} ChunksFromCoverData(data: seq<byte>, pos: nat, size: ReadSize)
    requires pos <= |data|
    ensures size != 0 ==> Flatten(ChunksFrom(data, pos, size)) == data[pos..]
    ensures size == 0 ==> ChunksFrom(data, pos, size) == []
    decreases |data| - pos
  {
    var end := ReadEnd(|data|, pos, size);
    if end != pos {
      ChunksFromCoverData(data, end, size);
      assert data[pos..] == data[pos..end] + data[end..];
    }
  }

  /** The chunks put together are exactly the file's bytes, unless the chunk
      size is zero, in which case the first read is already empty. */
  lemma ChunksCoverData(data: seq<byte>, size: ReadSize)
    ensures size != 0 ==> Flatten(ChunksOf(data, size)) == data
    ensures size == 0 ==> ChunksOf(data, size) == []
  {
    ChunksFromCoverData(data, 0, size);
  }

  /** The hash of a file, or None when it cannot be read. */
  function FileHash(content: Content, size: ReadSize, algo: Algorithm): Option<string>
  {
    match content
    case Unreadable => None
    case Bytes(data) => Some(algo(Flatten(ChunksOf(data, size))))
  }

  /** The hash depends on the file's bytes only: a read failure gives None,
      and any non-zero chunk size gives the digest of the whole content. */
  lemma FileHashIsDigestOfContent(content: Content, size: ReadSize, algo: Algorithm)
    ensures FileHash(content, size, algo).None? <==> content.Unreadable?
    ensures content.Bytes? && size != 0 ==> FileHash(content, size, algo) == Some(algo(content.data))
    ensures content.Bytes? && size == 0 ==> FileHash(content, size, algo) == Some(algo([]))
  {
    if content.Bytes? {
      ChunksCoverData(content.data, size);
    }
  }

  /** What the read loop leaves in the digest, once every chunk has been fed. */
  lemma DigestOfChunks(content: Content, size: ReadSize, algo: Algorithm, chunks: seq<seq<byte>>, fed: seq<byte>)
    requires content.Bytes? && chunks == ChunksOf(content.data, size) && fed == Flatten(chunks)
    ensures FileHash(content, size, algo) == Some(algo(fed))
    ensures size != 0 ==> fed == content.data
  {
    ChunksCoverData(content.data, size);
  }

  /** `if file_hash:` -- a missing hash and an empty digest are both false. */
  predicate Truthy(h: Option<string>)
  {
    h.Some? && h.value != ""
  }

  /** An open binary file: its bytes and the read position. */
  class FileReader {
    const data: seq<byte>
    var pos: nat

    ghost predicate Valid()
      reads this
    {
      pos <= |data|
    }

    constructor Open(data: seq<byte>)
      ensures Valid() && this.data == data && pos == 0
    {
      this.data := data;
      pos := 0;
    }

    /** `f.read(size)`: the next bytes up to `size` (all of them for -1).
        A size below -1 raises `ValueError` and leaves the file where it was. */
    method Read(size: int) returns (chunk: seq<byte>, raised: bool)
      requires Valid()
      modifies this
      ensures Valid()
      ensures raised <==> size < -1
      ensures raised ==> pos == old(pos) && chunk == []
      ensures !raised ==> pos == ReadEnd(|data|, old(pos), size) && chunk == data[old(pos)..pos]
    {
      if size < -1 {
        return [], true;
      }
      var end := if size < 0 || pos + size > |data| then |data| else pos + size;
      chunk := data[pos..end];
      pos := end;
      raised := false;
    }
  }

  /** A running digest (`hash_obj`): it keeps the bytes fed so far, and the
      list of updates that fed them. */
  class HashAccumulator {
    const algo: Algorithm
    var fed: seq<byte>
    ghost var updates: seq<seq<byte>>

    ghost predicate Valid()
      reads this
    {
      fed == Flatten(updates)
    }

    constructor New(algo: Algorithm)
      ensures Valid() && this.algo == algo && updates == []
    {
      this.algo := algo;
      fed := [];
      updates := [];
    }

    /** `hash_obj.update(chunk)` */
    method Update(chunk: seq<byte>)
      requires Valid()
      modifies this
      ensures Valid()
      ensures updates == old(updates) + [chunk] && fed == old(fed) + chunk
    {
      FlattenSnoc(updates, chunk);
      fed := fed + chunk;
      updates := updates + [chunk];
    }

    /** `hash_obj.hexdigest()`: the digest of every chunk fed, in order. */
    function HexDigest(): (d: string)
      reads this
      ensures Valid() ==> d == algo(Flatten(updates))
    {
      algo(fed)
    }
  }

  /** The read loop `while chunk := f.read(size): hash_obj.update(chunk)`:
      every chunk left in the file is fed to the digest, in order. With a size
      below -1 the first read raises and nothing is fed. */
  method FeedFile(f: FileReader, hashObj: HashAccumulator, size: int) returns (raised: bool)
    requires f.Valid() && hashObj.Valid()
    modifies f, hashObj
    ensures f.Valid() && hashObj.Valid()
    ensures raised <==> size < -1
    ensures raised ==> hashObj.updates == old(hashObj.updates) && f.pos == old(f.pos)
    ensures !raised ==> hashObj.updates == old(hashObj.updates) + ChunksFrom(f.data, old(f.pos), size)
    ensures !raised ==> f.pos == if size == 0 then old(f.pos) else |f.data|
  {
    ghost var start := f.pos;
    ghost var done := hashObj.updates;
    var chunk;
    chunk, raised := f.Read(size);
    if raised {
      return;
    }
    ghost var all := ChunksFrom(f.data, start, size);
    while chunk != []
      invariant f.Valid() && hashObj.Valid() && !raised
      invariant start <= f.pos == ReadEnd(|f.data|, start, size)
      invariant chunk == f.data[start..f.pos]
      invariant hashObj.updates + ChunksFrom(f.data, start, size) == done + all
      invariant size == 0 ==> f.pos == old(f.pos)
      decreases |f.data| - start
    {
      assert ChunksFrom(f.data, start, size) == [chunk] + ChunksFrom(f.data, f.pos, size);
      hashObj.Update(chunk);
      start := f.pos;
      chunk, raised := f.Read(size);
    }
  }

  /** `calculate_file_hash`: the digest of the chunks read from the file, or
      None when the file cannot be opened or read. A readable file with a
      chunk size below -1 raises at the first read, and the error escapes.
      `chunks` is the list of updates the digest received. */
  method CalculateFileHash(content: Content, chunkSize: int, algo: Algorithm)
    returns (r: Outcome, ghost chunks: seq<seq<byte>>)
    ensures r == Raised <==> content.Bytes? && chunkSize < -1
    ensures content.Unreadable? ==> r == Returned(None) && chunks == []
    ensures content.Bytes? && chunkSize >= -1 ==>
      r == Returned(FileHash(content, chunkSize, algo)) && chunks == ChunksOf(content.data, chunkSize)
      && r.hash == Some(algo(Flatten(chunks)))
    ensures content.Bytes? && chunkSize >= -1 && chunkSize != 0 ==> r == Returned(Some(algo(content.data)))
  {
    var hashObj := new HashAccumulator.New(algo);
    if content.Unreadable? {
      return Returned(None), [];
    }
    var f := new FileReader.Open(content.data);
    var raised := FeedFile(f, hashObj, chunkSize);
    if raised {
      return Raised, [];
    }
    chunks := hashObj.updates;
    r := Returned(Some(hashObj.HexDigest()));
    DigestOfChunks(content, chunkSize, algo, chunks, hashObj.fed);
  }
}
