/**
 * Package integrity: the chunked check of kpkg_verify_integrity against the whole-file check of kpkg_extract_file.
 */
module Kpkg {
  import opened Bytes
  import opened Options
  import opened Sha256
  import Modular

  const CHUNK: nat := 4096

  type u64 = x: int | 0 <= x < 0x1_0000_0000_0000_0000

  /**
   * A reader that does not change: what it holds at each offset, and which reads it answers.  Offsets are 64-bit
   * and wrap.
   */
  datatype Reader = Reader(content: u64 -> byte, readable: (u64, nat) -> bool)

  function At(reader: Reader, offset: u64, i: nat): byte
  {
    reader.content((offset + i) % W64)
  }

  function Range(reader: Reader, offset: u64, size: nat): (s: seq<byte>)
    ensures |s| == size
  {
    seq(size, i requires 0 <= i => At(reader, offset, i))
  }

  function Read(reader: Reader, offset: u64, size: nat): Option<seq<byte>>
  {
    if reader.readable(offset, size) then Some(Range(reader, offset, size)) else None
  }

  datatype FileEntry = FileEntry(size: u64, payloadOffset: u64, sha256: seq<byte>)

  /** The chunked loop asks for these reads and no others. */
  ghost predicate ChunksReadable(reader: Reader, offset: u64, size: nat)
    decreases size
  {
    size > 0 ==>
      var n := if size > 4096 then 4096 else size;
      reader.readable(offset, n) && ChunksReadable(reader, (offset + n) % W64, size - n)
  }

  lemma RangeSplit(reader: Reader, offset: u64, n: nat, m: nat)
    ensures Range(reader, offset, n + m) == Range(reader, offset, n) + Range(reader, (offset + n) % W64, m)
  {
    var whole, tail := Range(reader, offset, n + m), Range(reader, (offset + n) % W64, m);
    forall i | 0 <= i < m
      ensures tail[i] == whole[n + i]
    {
      Wrap(offset + n, i);
    }
  }

  lemma Wrap(x: nat, i: nat)
    ensures (x % W64 + i) % W64 == (x + i) % W64
  {
    var q := x / W64;
    var y := x % W64 + i;
    assert x + i == W64 * q + y;
    Modular.ModUnique(x + i, W64, q + y / W64, y % W64);
  }

  class Package {
    const reader: Reader
    const payloadOffset: u64
    const files: seq<FileEntry>
    var verifiedIntegrity: bool

    constructor (reader: Reader, payloadOffset: u64, files: seq<FileEntry>)
      ensures this.reader == reader && this.payloadOffset == payloadOffset && this.files == files && !verifiedIntegrity
    {
      this.reader := reader;
      this.payloadOffset := payloadOffset;
      this.files := files;
      verifiedIntegrity := false;
    }

    function Start(f: FileEntry): u64
    {
      (payloadOffset + f.payloadOffset) % W64
    }

    /** The bytes of a file, from its place in the payload on. */
    ghost function Content(f: FileEntry): seq<byte>
    {
      seq(f.size, i requires 0 <= i => ContentByte(f, i))
    }

    ghost function ContentByte(f: FileEntry, i: nat): byte
    {
      reader.content((payloadOffset + f.payloadOffset + i) % W64)
    }

    lemma ContentIs(f: FileEntry)
      ensures Range(reader, Start(f), f.size) == Content(f)
    {
      forall i: nat | i < f.size
        ensures At(reader, Start(f), i) == Content(f)[i]
      {
        Wrap(payloadOffset + f.payloadOffset, i);
      }
    }

    /** They are those its index entry promises. */
    ghost predicate Intact(f: FileEntry)
    {
      Hash(Content(f)) == f.sha256
    }

    /** The read-and-hash loop for one file. */
    method HashFile(f: FileEntry) returns (digest: Option<seq<byte>>)
      ensures digest.Some? <==> ChunksReadable(reader, Start(f), f.size)
      ensures digest.Some? ==> digest.value == Hash(Content(f))
    {
      hide Hash, Range, ChunksReadable, Content, Context.Valid, Context.Absorbed;
      ContentIs(f);
      var sha := new Context();
      var remaining: nat := f.size;
      var offset := Start(f);
      ghost var seen := 0;
      RangeEmpty(reader, offset);
      while remaining > 0
        invariant seen + remaining == f.size && offset == (Start(f) + seen) % W64
        invariant fresh(sha) && fresh(sha.buffer) && sha.Valid() && sha.Absorbed() == Range(reader, Start(f), seen)
        invariant ChunksReadable(reader, offset, remaining) <==> ChunksReadable(reader, Start(f), f.size)
      {
        var n := if remaining > CHUNK then CHUNK else remaining;
        ChunkFirst(reader, offset, remaining);
        var chunk := Read(reader, offset, n);
        if chunk.None? {
          return None;
        }
        RangeSplit(reader, Start(f), seen, n);
        sha.Update(chunk.value);
        Wrap(Start(f) + seen, n);
        offset := (offset + n) % W64;
        remaining := remaining - n;
        seen := seen + n;
      }
      NoChunks(reader, offset);
      var d := sha.Finalize();
      digest := Some(d);
    }

    /** kpkg_verify_integrity; `memory` says whether the chunk buffer could be allocated. */
    method VerifyIntegrity(memory: bool) returns (ok: bool)
      modifies this
      ensures ok <==> memory && forall f | f in files :: ChunksReadable(reader, Start(f), f.size) && Intact(f)
      ensures verifiedIntegrity == (ok || old(verifiedIntegrity))
    {
      hide Hash, ChunksReadable, Content;
      if !memory {
        return false;
      }
      for i := 0 to |files|
        invariant forall j | 0 <= j < i :: ChunksReadable(reader, Start(files[j]), files[j].size) && Intact(files[j])
        invariant verifiedIntegrity == old(verifiedIntegrity)
      {
        var digest := HashFile(files[i]);
        if digest.None? || digest.value != files[i].sha256 {
          assert files[i] in files;
          return false;
        }
      }
      verifiedIntegrity := true;
      return true;
    }

    /** kpkg_extract_file; `memory` says whether the file buffer could be allocated. */
    method ExtractFile(index: nat, memory: bool) returns (out: Option<seq<byte>>)
      ensures out.Some? <==>
              index < |files| && memory && reader.readable(Start(files[index]), files[index].size)
                  && Intact(files[index])
      ensures out.Some? ==> out.value == Content(files[index])
    {
      hide Hash, Content, Range;
      if index >= |files| || !memory {
        return None;
      }
      var f := files[index];
      ContentIs(f);
      var content := Read(reader, Start(f), f.size);
      if content.None? {
        return None;
      }
      var digest := Sha256.Sha256(content.value);
      if digest != f.sha256 {
        return None;
      }
      return content;
    }

    /**
     * After a successful integrity check over an unchanged reader, extraction never fails on the hash: for every
     * file it succeeds exactly when the buffer is allocated and the reader answers the one large read. `chunkMemory`
     * says whether the buffer of the check could be allocated, `memory` whether that of the extraction could.
     */
    method VerifyThenExtract(index: nat, chunkMemory: bool, memory: bool) returns (ok: bool, out: Option<seq<byte>>)
      modifies this
      ensures ok <==> chunkMemory && forall f | f in files :: ChunksReadable(reader, Start(f), f.size) && Intact(f)
      ensures ok ==>
                (out.Some? <==> index < |files| && memory && reader.readable(Start(files[index]), files[index].size))
      ensures out.Some? ==> index < |files| && Hash(out.value) == files[index].sha256
    {
      hide Hash, ChunksReadable, Content;
      ok := VerifyIntegrity(chunkMemory);
      out := ExtractFile(index, memory);
    }
  }

  lemma NoChunks(reader: Reader, offset: u64)
    ensures ChunksReadable(reader, offset, 0)
  {
  }

  lemma ChunkFirst(reader: Reader, offset: u64, size: nat)
    requires size > 0
    ensures var n := if size > CHUNK then CHUNK else size;
            ChunksReadable(reader, offset, size) <==>
            reader.readable(offset, n) && ChunksReadable(reader, (offset + n) % W64, size - n)
  {
  }

  lemma RangeEmpty(reader: Reader, offset: u64)
    ensures Range(reader, offset, 0) == []
  {
  }
}
