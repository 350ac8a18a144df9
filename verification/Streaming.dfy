/** cli/hash.js: hashing a file in chunks, and a directory file by file. */
module Streaming {
  import opened Hashing
  import opened MerkleTree
  import opened DirectoryRoot
  import opened Ordering

  const STREAM_CHUNK_BYTES: nat := 1048576

  /** An open file.  A read may return fewer bytes than asked for, but returns none only at
      the end; bytes of the buffer past the count keep whatever they held. */
  class OpenFile {
    const bytes: Data
    var position: nat

    constructor (bytes: Data)
      ensures this.bytes == bytes && position == 0
    {
      this.bytes := bytes;
      position := 0;
    }

    method ReadSync(buf: array<Byte>) returns (n: nat)
      requires position <= |bytes| && buf.Length > 0
      modifies this`position, buf
      ensures n <= buf.Length && position == old(position) + n <= |bytes|
      ensures n == 0 <==> old(position) == |bytes|
      ensures buf[..n] == bytes[old(position)..position]
      ensures buf[n..] == old(buf[..])[n..]
    {
      var available := |bytes| - position;
      if available == 0 {
        return 0;
      }
      n :| 0 < n <= available && n <= buf.Length;
      forall i | 0 <= i < n { buf[i] := bytes[position + i]; }
      position := position + n;
    }
  }

  /** The incremental keccak: updating and finishing equals hashing all the bytes fed so far. */
  class IncrementalHash {
    const h: Hash
    var absorbed: Data

    constructor (h: Hash)
      ensures this.h == h && absorbed == []
    {
      this.h := h;
      absorbed := [];
    }

    method Update(buf: array<Byte>, n: nat)
      requires n <= buf.Length
      modifies this
      ensures absorbed == old(absorbed) + buf[..n]
    {
      absorbed := absorbed + buf[..n];
    }

    method Finish() returns (d: Digest)
      ensures d == h(absorbed)
    {
      d := h(absorbed);
    }
  }

  /** hashFileStream: whatever the pattern of short reads, the digest is that of the whole file. */
  method HashFileStream(h: Hash, content: Data) returns (d: Digest)
    ensures d == h(content)
  {
    var hasher := new IncrementalHash(h);
    var fd := new OpenFile(content);
    var buf := new Byte[STREAM_CHUNK_BYTES](_ => 0);
    while true
      invariant fresh(hasher) && fresh(fd) && fresh(buf)
      invariant fd.position <= |content| && hasher.absorbed == content[..fd.position]
      decreases |content| - fd.position
    {
      ghost var before := fd.position;
      var bytesRead := fd.ReadSync(buf);
      if bytesRead == 0 { break; }
      hasher.Update(buf, bytesRead);
      assert content[..before] + content[before..fd.position] == content[..fd.position];
    }
    assert content[..|content|] == content;
    d := hasher.Finish();
  }

  /** hashDirStream: one streamed file at a time gives hashEntries' root and manifest. */
  method HashDirStream(h: Hash, files: seq<Entry>) returns (r: Option<DirResult>)
    ensures r == HashEntries(h, files)
  {
    if |files| == 0 {
      return None;
    }
    var pairs: seq<FileLeaf> := [];
    for i := 0 to |files|
      invariant |pairs| == i && forall k :: 0 <= k < i ==> pairs[k] == LeafOf(h, files[k])
    {
      var rel := ToPosixRel(files[i].path);
      var contentHash := HashFileStream(h, files[i].content);
      pairs := pairs + [FileLeaf(rel, contentHash, PathLeaf(h, rel, contentHash))];
    }
    assert pairs == LeavesOf(h, files);
    var built := BuildTree(h, LeafValues(pairs));
    r := Some(DirResult(built.value.root, Sort(pairs, ByLeaf)));
  }

  /** Streaming one enumeration and hashing another in one shot agree on root and manifest. */
  lemma {:induction false} StreamedEqualsOneShot(h: Hash, walked: seq<Entry>, listed: seq<Entry>, streamed: Option<DirResult>)
    requires FileSet(walked) && multiset(walked) == multiset(listed) && streamed == HashEntries(h, walked)
    ensures streamed.value.root == HashEntries(h, listed).value.root
    ensures streamed == HashEntries(h, listed) || Clash(h, EntryMessages(h, walked))
  {
    RootIgnoresEnumeration(h, walked, listed);
    ManifestIgnoresEnumeration(h, walked, listed);
  }
}
